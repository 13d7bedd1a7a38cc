/**
 * The catch-all router mounted on `'*'` with `use`: whatever request reaches
 * it, of any method and to any path, is answered by forwarding one
 * `NotFoundError` to the error responder.
 */
module WrongRequestsRouter {
  import opened HttpErrors
  import opened Express

  /** The message of the forwarded error ("the requested page does not exist"). */
  const PAGE_NOT_FOUND_MESSAGE: string := "Запрошенной страницы не существует"

  /**
   * The handler: the calls it makes to `next`. Being a function it changes
   * neither `req` nor `res`, and it reads neither.
   */
  function WrongRequestHandler(req: Request, res: Response): (calls: seq<NextCall>)
    ensures |calls| == 1 && calls[0].Forward?
    ensures calls[0].error.NotFoundError? && calls[0].error.message == PAGE_NOT_FOUND_MESSAGE
    ensures calls[0].error.StatusCode() == STATUS_NOT_FOUND
  {
    [Forward(NotFoundError(PAGE_NOT_FOUND_MESSAGE))]
  }

  /** The outcome does not depend on the request or the response. */
  lemma HandlerIgnoresRequest(req1: Request, res1: Response, req2: Request, res2: Response)
    ensures WrongRequestHandler(req1, res1) == WrongRequestHandler(req2, res2)
  {
  }
}
