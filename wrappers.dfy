/** Failure-carrying values used in place of Go's (value, error) pairs and nil errors. */
module Wrappers {

  /** A value that may be absent (Go's nil pointer or `ok == false`). */
  datatype Option<+T> = None | Some(value: T)

  /** A value or the error that replaced it (Go's `(T, error)`). */
  datatype Result<+T, +E> = Success(value: T) | Failure(error: E)

  /** A bare Go `error`: nil (Pass) or an error value. */
  datatype Outcome<+E> = Pass | Fail(error: E)
}
