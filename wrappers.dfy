/** The "may be None" and "may raise" outcomes of the Python code. */
module Wrappers {

  /** Python's None, or a present value. */
  datatype Option<+T> = None | Some(value: T)

  /** A returned value, or the exception that was raised instead. */
  datatype Result<+T, +E> = Ok(value: T) | Err(error: E)
}
