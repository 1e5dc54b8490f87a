/** Failure-carrying wrappers used throughout the model. */
module Wrappers {

  /** A value that may be absent; Python's `None` result. */
  datatype Option<+T> = None | Some(value: T)

  /** Either a computed value or the error the program would raise. */
  datatype Result<+R, +E> = Success(value: R) | Failure(error: E)
}
