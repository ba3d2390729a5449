/** Option and Result: the nullable returns and the exceptions of the service. */
module Wrappers {

  /** A value that may be absent (PHP `null`). */
  datatype Option<+T> = None | Some(value: T)

  /** Either a value or the error an operation fails with. */
  datatype Result<+T, +E> = Ok(value: T) | Err(error: E)
}
