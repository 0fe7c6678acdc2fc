/** The two datatypes for partial results that the models share. */
module Wrappers {

  /** A value that may be absent: Go's `nil` pointer, or the `ok == false` of a lookup. */
  datatype Option<+T> = None | Some(value: T)

  /** The outcome of a Go function that returns a value and an error. */
  datatype Result<+T, +E> = Success(value: T) | Failure(error: E)
}
