/** Failure-compatible result types used throughout the model. */
module Wrappers {

  /** A value that may be absent (Python's `Optional[T]`, `None` meaning absent). */
  datatype Option<+T> = None | Some(value: T) {
    /** The wrapped value, or `default` when absent (Python's `x or default` for a possibly-None x). */
    function GetOr(default: T): T {
      match this
      case Some(v) => v
      case None => default
    }
  }

  /** Either a value or the error that a Python function would raise instead. */
  datatype Result<+T, +E> = Ok(value: T) | Err(error: E)
}
