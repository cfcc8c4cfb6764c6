/** Failure-carrying results used across the model. */
module Wrappers {

  /** Python's `None` or a present value. */
  datatype Option<+T> = None | Some(value: T)

  /** The value of an operation, or the exception the source would raise. */
  datatype Result<+R, +E> = Success(value: R) | Failure(error: E)
}
