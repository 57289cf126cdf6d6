/** Option and Result values shared by every module of the model. */
module Wrappers {

  /** A value that may be absent: Python's `None` or a parse that failed. */
  datatype Option<+T> = None | Some(value: T)

  /** A computation that either produced a value or raised an error. */
  datatype Result<+T, +E> = Success(value: T) | Failure(error: E)
}
