/** Failure-carrying wrappers used throughout the model. */
module Wrappers {

  /** An optional value: `None` stands for Python's `None`. */
  datatype Option<+T> = None | Some(value: T)

  /** Either a value or an error value. */
  datatype Result<+R, +E> = Success(value: R) | Failure(error: E)
}
