/** Failure-compatible result types standing for the C++ exceptions of the search server. */
module Wrappers {

  /** A value, or the error an operation threw instead of returning it. */
  datatype Result<+T, +E> = Success(value: T) | Failure(error: E) {

    predicate IsFailure() {
      Failure?
    }

    function PropagateFailure<U>(): Result<U, E>
      requires Failure?
    {
      Failure(error)
    }

    function Extract(): T
      requires Success?
    {
      value
    }
  }

  /** The outcome of an operation that returns nothing (C++ `void`) but may throw. */
  datatype Outcome<+E> = Pass | Fail(error: E)
}
