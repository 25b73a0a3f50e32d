/** Option and result types used across the model. */
module Wrappers {

  /** An optional value: `None` where the source has no entry or no match. */
  datatype Option<+T> = None | Some(value: T)

  /** The outcome of an operation that the source lets raise an exception. */
  datatype Result<+R, +E> = Success(value: R) | Failure(error: E)
}
