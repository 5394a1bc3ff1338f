/** Small failure-carrying datatypes used by the entity manager model. */
module Wrappers {

  /** A value that may be absent; Python's `None` return is `None` here. */
  datatype Option<+T> = None | Some(value: T)

  /** Either a value or the exception the Python code would raise instead. */
  datatype Result<+R, +E> = Ok(value: R) | Err(error: E)

  /** The outcome of an operation that returns nothing on success. */
  datatype Outcome<+E> = Pass | Fail(error: E)
}
