/** Option and Result types used to model Python's `None` and exceptions. */
module Wrappers {

  datatype Option<+T> = None | Some(value: T)

  /** A computation that either succeeds with a value or raises an error. */
  datatype Result<+T, +E> = Success(value: T) | Failure(error: E)
}
