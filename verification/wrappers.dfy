/** Failure-carrying value types shared by the rest of the model. */
module Wrappers {

  /** A value that may be absent (Go's `nil` / "not found"). */
  datatype Option<+T> = None | Some(value: T)

  /** Either a value or the error that stopped its computation (Go's `(T, error)` with a fatal error). */
  datatype Result<+T, +E> = Ok(value: T) | Err(error: E)
}
