/** Failure-carrying results shared by the storage and cluster models. */
module Wrappers {

  /** A possibly absent value: Go's nil pointer or nil error. */
  datatype Option<+T> = None | Some(value: T)

  /** A value or the error that replaced it: Go's `(value, err)` pair. */
  datatype Result<+T, +E> = Ok(value: T) | Err(error: E)
}
