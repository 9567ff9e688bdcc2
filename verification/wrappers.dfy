/** Failure-carrying results shared by the other modules. */
module Wrappers {

  /** A value that may be absent; `None` stands for a Python exception with no payload. */
  datatype Option<+T> = None | Some(value: T)

  /** A value, or the error that Python would have raised instead of returning it. */
  datatype Result<+T, +E> = Ok(value: T) | Err(error: E)
}
