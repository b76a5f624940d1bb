/** Option and Result, used for Python's `None` and for raised exceptions. */
module Wrappers {

  /** A value or Python's `None`. */
  datatype Option<+T> = None | Some(value: T)

  /** A returned value, or the exception that the call raised instead. */
  datatype Result<+T, +E> = Ok(value: T) | Err(error: E)
}
