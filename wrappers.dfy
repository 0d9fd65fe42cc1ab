/** Optional values and results, used wherever the system returns `None` or raises. */
module Wrappers {

  datatype Option<+T> = None | Some(value: T) {
    /** The value, or `default` when there is none (Python's `x if x is not None else default`). */
    function GetOr(default: T): T {
      match this
      case Some(v) => v
      case None => default
    }
  }

  /** The outcome of a call that either returns a value or raises an exception carrying `error`. */
  datatype Result<+T, +E> = Success(value: T) | Failure(error: E)
}
