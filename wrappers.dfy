/** Optional values and results with an error, as the routes and the store return them. */
module Wrappers {

  /** A value that may be absent (`undefined` / `null` in the source). */
  datatype Option<+T> = None | Some(value: T) {
    function GetOr(default: T): T {
      match this
      case Some(v) => v
      case None => default
    }
  }

  /** The outcome of a request handler: a value, or the error it answers with. */
  datatype Result<+R, +E> = Success(value: R) | Failure(error: E)
}
