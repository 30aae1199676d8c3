/** Failure-carrying wrappers used by the whole model. */
module Wrappers {

  /** A value that may be absent: Python's `None` or a failed parse. */
  datatype Option<+T> = None | Some(value: T) {
    function GetOr(default: T): T {
      match this
      case Some(v) => v
      case None => default
    }
  }

  /** The outcome of a step that may raise. */
  datatype Result<+R, +E> = Success(value: R) | Failure(error: E)
}
