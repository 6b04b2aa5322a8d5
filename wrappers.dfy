/** Option and Result, the two failure-carrying datatypes the model uses for
    Go's nil pointers and error returns. */
module Wrappers {

  /** A value that may be absent (Go's nil). */
  datatype Option<+T> = None | Some(value: T)

  /** A value or the error that prevented it (Go's (value, error) pair). */
  datatype Result<+T, +E> = Success(value: T) | Failure(error: E)
}
