/** Result and Option values standing in for the exceptions and missing attributes of the
    original Python code. */
module Wrappers {

  /** `Err` carries the exception the Python code raises. */
  datatype Result<+T, +E> = Ok(value: T) | Err(error: E)

  datatype Option<+T> = None | Some(value: T)
}
