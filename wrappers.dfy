/** Option and Result, the failure-carrying values used throughout the model. */
module Wrappers {

  datatype Option<+T> = None | Some(value: T)

  /** A Go `(value, error)` pair: either a value or an error, never both. */
  datatype Result<+T, +E> = Success(value: T) | Failure(error: E)
}
