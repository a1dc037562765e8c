/** Failure-carrying values shared by every module of the model. */
module Wrappers {

  /** A value that may be absent: Python's `None` or a missing dictionary entry. */
  datatype Option<+T> = None | Some(value: T)

  /** The outcome of an operation that may raise: `Ok` carries the result, `Err` the exception. */
  datatype Result<+T, +E> = Ok(value: T) | Err(error: E)
}
