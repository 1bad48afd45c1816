/** Optional values, standing for Python's `None` and for calls that fail. */
module Wrappers {

  datatype Option<+T> = None | Some(value: T) {

    /** The value when present, otherwise the given default (Python's `x or default`). */
    function GetOr(default: T): T {
      match this
      case Some(v) => v
      case None => default
    }
  }

  /** The outcome of an operation that either succeeds or raises the error `error`. */
  datatype Result<+T, +E> = Ok(value: T) | Err(error: E)
}
