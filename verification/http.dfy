/** The error responses the API views return, with their HTTP status codes. */
module Http {

  /** A failed request. Every error leaves the store as it was: the views
      either fail before writing or write inside a transaction that is
      rolled back. */
  datatype Error =
    | BadRequest(detail: string)    // 400: a missing or malformed input
    | NotFound                      // 404: an unknown primary key in the path
    | Conflict(detail: string)      // 409: the version already has a decision
    | ServerError(detail: string)   // 500: a database constraint raised

  /** The HTTP status code sent for an error. */
  function Code(e: Error): (c: int)
    ensures 400 <= c < 600
    ensures c == 409 <==> e.Conflict?
    ensures c == 404 <==> e.NotFound?
    ensures c == 400 <==> e.BadRequest?
    ensures c == 500 <==> e.ServerError?
  {
    match e
    case BadRequest(_) => 400
    case NotFound => 404
    case Conflict(_) => 409
    case ServerError(_) => 500
  }
}
