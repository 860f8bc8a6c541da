/** Failure-carrying wrappers used across the model: `Option` for Python's
    `None`-or-value, `Result` for a value or a raised error. */
module Wrappers {

  datatype Option<T> = None | Some(value: T) {
    /** The value, or `default` when absent (Python's `x or default`). */
    function GetOr(default: T): T {
      match this
      case Some(v) => v
      case None => default
    }
  }

  datatype Result<R, E> = Success(value: R) | Failure(error: E)
}
