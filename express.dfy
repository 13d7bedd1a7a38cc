/**
 * The parts of Express's request, response and `next` callback that the
 * middleware and the catch-all router touch.
 */
module Express {
  import opened Wrappers
  import opened HttpErrors

  /** The payload `jwt.verify` decodes from a token: claim names to values. */
  type Claims = map<string, string>

  /** One call of `next`: `next()` lets the request continue, `next(err)` forwards an error. */
  datatype NextCall = Continue | Forward(error: HttpError)

  /** An incoming request; only `req.user` is ever assigned by the core. */
  class Request {
    const httpMethod: string
    const path: string
    /** `req.headers.authorization`; `None` when the header is absent. */
    const authorization: Option<string>
    /** `req.user`; `None` when it is `undefined`. */
    var user: Option<Claims>

    constructor (httpMethod: string, path: string, authorization: Option<string>)
      ensures this.httpMethod == httpMethod && this.path == path
      ensures this.authorization == authorization && user == None
    {
      this.httpMethod := httpMethod;
      this.path := path;
      this.authorization := authorization;
      user := None;
    }
  }

  /** The response a handler may write: a status and a body. */
  class Response {
    var status: Option<int>
    var body: Option<string>

    constructor ()
      ensures status == None && body == None
    {
      status := None;
      body := None;
    }
  }

  /** The `next` callback, observed as the log of the calls made to it. */
  class NextCallback {
    var calls: seq<NextCall>

    constructor ()
      ensures calls == []
    {
      calls := [];
    }

    method Invoke(call: NextCall)
      modifies this
      ensures calls == old(calls) + [call]
    {
      calls := calls + [call];
    }
  }
}
