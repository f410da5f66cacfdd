/** Failure-compatible wrappers shared by every module of the model:
    `Option` for values that JavaScript calls `undefined`/`null` and Python
    calls `None`, and `Result` for an operation that either returns a value
    or throws / raises. */
module Wrappers {

  datatype Option<+T> = None | Some(value: T) {

    /** The value, or `default` when absent. */
    function GetOr(default: T): T {
      match this
      case Some(v) => v
      case None => default
    }
  }

  datatype Result<+T, +E> = Success(value: T) | Failure(error: E) {

    predicate IsFailure() {
      Failure?
    }
  }
}
