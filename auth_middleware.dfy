/** AuthMiddleware.use: copies a bearer token from the Authorization header to `req.token`
    and always hands the request on. Only its behaviour under test is known: a header
    "Bearer <token>" sets the token, a missing or scheme-less header sets nothing. */
module AuthMiddleware {
  import opened Entities
  import opened Http
  import UsersService

  /** The token the middleware copies: the header is exactly "Bearer " followed by a
      non-empty token without spaces. */
  function ExtractBearer(authorization: Option<string>): (token: Option<string>)
    ensures token.Some? ==>
              token.value != "" && ' ' !in token.value && authorization == Some("Bearer " + token.value)
  {
    if authorization.Some? && |authorization.value| > 7 && authorization.value[..7] == "Bearer "
       && ' ' !in authorization.value[7..]
    then
      assert authorization.value == authorization.value[..7] + authorization.value[7..];
      Some(authorization.value[7..])
    else None
  }

  /** Every "Bearer <token>" header yields its token. */
  lemma ExtractBearerAccepts(token: string)
    requires token != "" && ' ' !in token
    ensures ExtractBearer(Some("Bearer " + token)) == Some(token)
  {
    var h := "Bearer " + token;
    assert h[..7] == "Bearer " && h[7..] == token;
  }

  /** A header without the "Bearer " scheme, and a missing header, yield no token. */
  lemma ExtractBearerNeedsScheme(authorization: Option<string>)
    requires authorization.None? || !(|authorization.value| >= 7 && authorization.value[..7] == "Bearer ")
    ensures ExtractBearer(authorization) == None
  {
  }

  /** A token the middleware extracts is one createUser would also accept. */
  lemma MiddlewareTokenAcceptedByCreateUser(authorization: Option<string>)
    requires ExtractBearer(authorization).Some?
    ensures UsersService.BearerToken(authorization) == ExtractBearer(authorization)
  {
    var token := ExtractBearer(authorization).value;
    UsersService.BearerTokenAccepts(token, "");
    assert "Bearer " + token + "" == "Bearer " + token;
  }

  /** use(req, res, next). Returns whether `next` was called. */
  method Use(req: Request) returns (nextCalled: bool)
    modifies req`token
    ensures nextCalled
    ensures req.token == (if ExtractBearer(req.authorization).Some? then ExtractBearer(req.authorization) else old(req.token))
  {
    var token := ExtractBearer(req.authorization);
    if token.Some? {
      req.token := token;
    }
    nextCalled := true;
  }

  /** The three header cases the middleware is tested with: each request is passed on, and
      `req.token` ends up "validToken" for "Bearer validToken" and undefined for a missing
      header and for "InvalidFormatToken". */
  method TestedHeaders() returns (valid: Option<string>, missing: Option<string>, malformed: Option<string>, allPassed: bool)
    ensures valid == Some("validToken") && missing == None && malformed == None
    ensures allPassed
  {
    var validRequest := new Request(Some("Bearer validToken"));
    var validPassed := Use(validRequest);
    ExtractBearerAccepts("validToken");
    assert "Bearer " + "validToken" == "Bearer validToken";
    valid := validRequest.token;

    var missingRequest := new Request(None);
    var missingPassed := Use(missingRequest);
    missing := missingRequest.token;

    var malformedRequest := new Request(Some("InvalidFormatToken"));
    var malformedPassed := Use(malformedRequest);
    assert "InvalidFormatToken"[..7][0] == 'I';
    ExtractBearerNeedsScheme(Some("InvalidFormatToken"));
    malformed := malformedRequest.token;

    allPassed := validPassed && missingPassed && malformedPassed;
  }
}
