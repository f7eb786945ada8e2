/** Failure-compatible result type used for the exceptions the Python code raises. */
module Wrappers {

  /** `Success` carries the normal result, `Failure` the exception that Python would raise. */
  datatype Result<+R, +E> = Success(value: R) | Failure(error: E) {

    predicate IsFailure() {
      Failure?
    }

    function PropagateFailure<U>(): Result<U, E>
      requires Failure?
    {
      Failure(error)
    }

    function Extract(): R
      requires Success?
    {
      value
    }
  }
}
