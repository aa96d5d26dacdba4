/** Go's "value or nil" and "value or error" returns. */
module Wrappers {

  /** A Go pointer or interface that may be nil. */
  datatype Option<+T> = None | Some(value: T)

  /** A Go `(value, error)` pair in which exactly one side is set. */
  datatype Result<+T, +E> = Ok(value: T) | Err(error: E)
}
