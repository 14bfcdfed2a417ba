/** Option and Result, the failure-carrying values used across the model. */
module Wrappers {

  datatype Option<+T> = None | Some(value: T)

  /** The value of an operation that either succeeds or raises the error `error`. */
  datatype Result<+R, +E> = Success(value: R) | Failure(error: E) {
    predicate IsFailure() {
      Failure?
    }

    function PropagateFailure<U>(): Result<U, E>
      requires Failure?
    {
      Failure(error)
    }

    function Extract(): R
      requires Success?
    {
      value
    }
  }
}
