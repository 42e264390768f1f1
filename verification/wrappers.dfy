/** Failure-compatible wrappers shared by every module of the model. */
module Wrappers {

  /** An optional value; Go's nil pointer or "no error" is `None`. */
  datatype Option<+T> = None | Some(value: T)

  /** A value or the error that replaced it (Go's `(T, error)` pair). */
  datatype Result<+T, +E> = Success(value: T) | Failure(error: E)
}
