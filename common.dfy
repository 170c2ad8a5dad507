/** Failure-compatible wrappers shared by every module of the model. */
module Common {

  /** A value that may be absent: Python's `None` versus a present value. */
  datatype Option<+T> = None | Some(value: T) {
    /** Python's `d.get(key, default)` once the lookup has produced this option. */
    function GetOr(default: T): T {
      match this
      case Some(v) => v
      case None => default
    }
  }

  /** The outcome of an HTTP handler: a response body or a raised `HTTPException`. */
  datatype Result<+T, +E> = Ok(value: T) | Err(error: E)

  /** An `HTTPException`: its status code, its `detail` string, and whether it
      carries the `WWW-Authenticate: Bearer` header. */
  datatype HttpError = HttpError(status: int, detail: string, bearerChallenge: bool)

  function NotFound(detail: string): HttpError {
    HttpError(404, detail, false)
  }
}
