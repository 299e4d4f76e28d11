/** Failure-carrying results shared by the transfer-pipeline model. */
module Wrappers {

  datatype Option<+T> = None | Some(value: T)

  /** The result of an operation that either produces a value or raises. */
  datatype Result<+R, +E> = Success(value: R) | Failure(error: E)

  /** The result of an operation that produces nothing or raises. */
  datatype Outcome<+E> = Pass | Fail(error: E)
}
