/** Option and Result, the two failure-carrying shapes used across the model. */
module Wrappers {

  datatype Option<+T> = None | Some(value: T)

  /** The outcome of an operation that can panic in the source. */
  datatype Result<+T, +E> = Success(value: T) | Failure(error: E)
}
