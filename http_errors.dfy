/**
 * The backend's error taxonomy. Every error class extends `Error` (so it has a
 * `message`) and fixes a `statusCode` in its constructor; neither is changed
 * afterwards, so each class is a variant of one immutable value type.
 * The status constants come from `constants/http-status`, which is not part of
 * this model; they carry the conventional values of RFC 9110, sections 15.5.1,
 * 15.5.2 and 15.5.5.
 */
module HttpErrors {

  const STATUS_BAD_REQUEST: int := 400
  const STATUS_UNAUTHORIZED: int := 401
  const STATUS_NOT_FOUND: int := 404

  datatype HttpError =
    | BadRequestError(message: string)
    | UnauthorizedError(message: string)
    | NotFoundError(message: string)
  {
    /** The `statusCode` property set by the variant's constructor. */
    function StatusCode(): (code: int)
      ensures 400 <= code <= 499
      ensures BadRequestError? <==> code == STATUS_BAD_REQUEST
      ensures UnauthorizedError? <==> code == STATUS_UNAUTHORIZED
      ensures NotFoundError? <==> code == STATUS_NOT_FOUND
    {
      match this
      case BadRequestError(_) => STATUS_BAD_REQUEST
      case UnauthorizedError(_) => STATUS_UNAUTHORIZED
      case NotFoundError(_) => STATUS_NOT_FOUND
    }
  }

  /** `new BadRequestError(message)`: the message is the argument, the status is fixed. */
  lemma BadRequestErrorConstructed(message: string)
    ensures BadRequestError(message).message == message
    ensures BadRequestError(message).StatusCode() == STATUS_BAD_REQUEST
  {
  }

  /** The status of every variant is independent of its message. */
  lemma StatusIndependentOfMessage(m1: string, m2: string)
    ensures BadRequestError(m1).StatusCode() == BadRequestError(m2).StatusCode()
    ensures UnauthorizedError(m1).StatusCode() == UnauthorizedError(m2).StatusCode()
    ensures NotFoundError(m1).StatusCode() == NotFoundError(m2).StatusCode()
  {
  }

  /** Two errors are equal exactly when they have the same status and the same message. */
  lemma StatusAndMessageDetermineError(a: HttpError, b: HttpError)
    ensures a == b <==> a.StatusCode() == b.StatusCode() && a.message == b.message
  {
  }
}
