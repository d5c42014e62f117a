/** Failure-compatible wrappers used throughout the model. */
module Wrappers {

  /** A value that may be absent; `None` stands for a Go nil (a nil `*T` or a nil slice). */
  datatype Option<+T> = None | Some(value: T)

  /** The result of an operation that may fail with an error of type E. */
  datatype Result<+R, +E> = Success(value: R) | Failure(error: E)
}
