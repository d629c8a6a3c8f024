/** Failure-carrying results used wherever the modelled code throws. */
module Wrappers {

  /** The value of an operation that either succeeds or throws an error. */
  datatype Result<+T, +E> = Success(value: T) | Failure(error: E)

  /** The outcome of a check that either passes or throws an error. */
  datatype Outcome<+E> = Pass | Fail(error: E)
}
