/** Optional values and error-carrying results shared by every module. */
module Wrappers {

  /** A value that may be absent: Python's `None`, JavaScript's `undefined`/`null`. */
  datatype Option<+T> = None | Some(value: T) {

    /** The value, or `default` when absent (the `x or default` / `x ?? default` idiom). */
    function GetOr(default: T): T {
      match this
      case Some(v) => v
      case None => default
    }
  }

  /** The outcome of an operation that may be refused with an error value. */
  datatype Result<+R, +E> = Success(value: R) | Failure(error: E)
}
