/** Option and Result datatypes used across the model. */
module Wrappers {

  /** An optional value: Python's `None` or a value. */
  datatype Option<+T> = None | Some(value: T)

  /** The outcome of an operation that may raise: a value, or the exception it raises. */
  datatype Result<+T, +E> = Ok(value: T) | Err(error: E)
}
