/** AuthGuard.canActivate: public routes pass; protected routes need a token in `req.token`
    that the JWT verifier accepts. Only its behaviour under test is known. */
module JwtAuthGuard {
  import opened Entities
  import AuthMiddleware

  /** `isPublic` is the route's public marker, `token` is `req.token` (the header is not
      read), `verify` tells whether JwtService.verifyAsync resolves for a token. Resolves
      to true or throws UnauthorizedException; never resolves to false. */
  function CanActivate(isPublic: bool, token: Option<string>, verify: string -> bool): (r: Result<bool, Error>)
    ensures r.Ok? ==> r.value
    ensures r.Err? ==> r.error == Unauthorized
    ensures r.Ok? <==> isPublic || (token.Some? && verify(token.value))
  {
    if isPublic then Ok(true)
    else if token.None? then Err(Unauthorized)
    else if verify(token.value) then Ok(true)
    else Err(Unauthorized)
  }

  /** A public route is open even without a token, whatever the verifier says. */
  lemma PublicRouteAllowsWithoutToken(verify: string -> bool)
    ensures CanActivate(true, None, verify) == Ok(true)
  {
  }

  /** Behind the middleware, a protected route reached with the header "InvalidFormatToken"
      has no token and is refused. */
  lemma MalformedHeaderIsUnauthorized(verify: string -> bool)
    ensures CanActivate(false, AuthMiddleware.ExtractBearer(Some("InvalidFormatToken")), verify) == Err(Unauthorized)
  {
    assert "InvalidFormatToken"[..7][0] == 'I';
    AuthMiddleware.ExtractBearerNeedsScheme(Some("InvalidFormatToken"));
  }
}
