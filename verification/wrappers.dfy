/** Failure-carrying return values shared by the ensemble modules. */
module Wrappers {

  /** A value that may be absent; `None` plays the role of Python's `None` result. */
  datatype Option<+T> = None | Some(value: T)

  /** Either a value or the error a Python call would have raised. */
  datatype Result<+T, +E> = Ok(value: T) | Err(error: E)
}
