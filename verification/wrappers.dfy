/** Failure-compatible wrappers used throughout the model. */
module Wrappers {

  /** An optional value: Go's nil pointer or absent field. */
  datatype Option<T> = None | Some(value: T)

  /** A value or an error, for Go's `(value, error)` returns. */
  datatype Result<R, E> = Success(value: R) | Failure(error: E)
}
