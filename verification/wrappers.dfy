/** Failure-carrying values used where the Python code returns None or raises. */
module Wrappers {

  /** A value that may be absent: Python's `None` versus a present value. */
  datatype Option<+T> = None | Some(value: T) {

    /** The wrapped value, or `default` when absent (Python's `x if x is not None else default`). */
    function GetOr(default: T): T {
      match this
      case Some(v) => v
      case None => default
    }
  }

  /** The outcome of an operation that may raise: `Failure` stands for the exception. */
  datatype Result<+R, +E> = Success(value: R) | Failure(error: E)
}
