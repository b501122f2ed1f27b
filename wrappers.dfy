/** Option and Result, the two failure-carrying datatypes used throughout the model. */
module Wrappers {

  /** A value that may be absent (Python's `None`). */
  datatype Option<+T> = None | Some(value: T)

  /** A computation that either produced a value or raised an exception. */
  datatype Result<+R, +E> = Success(value: R) | Failure(error: E)
}
