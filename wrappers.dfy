/** Option, Result and Outcome: the model's stand-ins for Python's `None`
    and for raised exceptions. */
module Wrappers {

  datatype Option<+T> = None | Some(value: T)

  /** The value a Python function returns, or the exception it raises. */
  datatype Result<+T, +E> = Ok(value: T) | Err(error: E)

  /** A Python procedure that returns nothing, or raises. */
  datatype Outcome<+E> = Pass | Fail(error: E)
}
