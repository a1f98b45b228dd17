/** Optional values and results: `None` stands for a JavaScript `undefined`/`null`,
    `Failure` for an exception that aborts a callback. */
module Wrappers {

  datatype Option<+T> = None | Some(value: T) {
    /** `value || default` for a field that is either missing or set. */
    function GetOr(default: T): T {
      match this
      case Some(v) => v
      case None => default
    }
  }

  datatype Result<+R, +E> = Success(value: R) | Failure(error: E)
}
