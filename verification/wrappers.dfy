/** Failure-compatible Option and Result datatypes used throughout the model. */
module Wrappers {

  /** An optional value: `None` stands for a missing key or a pandas NaN. */
  datatype Option<+T> = None | Some(value: T) {

    /** Returns the value or a default when there is none. */
    function GetOr(default: T): T {
      match this
      case Some(v) => v
      case None => default
    }
  }

  /** Either a value or the error that ends the script. */
  datatype Result<+T, +E> = Success(value: T) | Failure(error: E) {

    predicate IsFailure() {
      Failure?
    }

    function PropagateFailure<U>(): Result<U, E>
      requires Failure?
    {
      Failure(error)
    }

    function Extract(): T
      requires Success?
    {
      value
    }
  }
}
