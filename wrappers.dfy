/** Option and Result, used across the model. */
module Wrappers {

  /** A value that may be absent (Go's nil). */
  datatype Option<+T> = None | Some(value: T)

  /** A value or an error (Go's (value, error) result pair). */
  datatype Result<+R, +E> = Success(value: R) | Failure(error: E)
}
