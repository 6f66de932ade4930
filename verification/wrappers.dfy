/** Option and Result types shared by the backend and frontend models. */
module Wrappers {

  /** A value that may be absent: Python's `None`, or a JavaScript `null`/`undefined`. */
  datatype Option<+T> = None | Some(value: T) {

    /** Returns the wrapped value, or `default` when absent. */
    function GetOr(default: T): T {
      match this
      case Some(v) => v
      case None => default
    }
  }

  /** The outcome of an operation that either produces a value or fails with an error. */
  datatype Result<+R, +E> = Ok(value: R) | Err(error: E)
}
