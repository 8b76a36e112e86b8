/** The parts of an Express request that the authentication code reads or writes. */
module Http {
  import opened Entities

  class Request {
    /** `req.headers['authorization']`; None when the header is absent. */
    var authorization: Option<string>
    /** `req['token']`, written by AuthMiddleware and read by AuthGuard; None while undefined. */
    var token: Option<string>

    constructor (authorization: Option<string>)
      ensures this.authorization == authorization && token == None
    {
      this.authorization := authorization;
      token := None;
    }
  }
}
