/** Failure-compatible wrappers used across the model. */
module Wrappers {

  /** A value that may be absent (Python `None`). */
  datatype Option<+T> = None | Some(value: T) {
    /** The value, or `default` when absent (Python `d.get(key, default)`). */
    function GetOr(default: T): T {
      match this
      case Some(v) => v
      case None => default
    }
  }

  /** The outcome of a call that may raise: a value or an error message. */
  datatype Result<+T, +E> = Success(value: T) | Failure(error: E)
}
