/** Option and Result, the failure-carrying values used throughout the model. */
module Wrappers {

  /** A value that may be absent: JavaScript's `undefined`/`null`, or a `NaN` parse. */
  datatype Option<+T> = None | Some(value: T)

  /** The outcome of an operation that may fail, such as a directory listing. */
  datatype Result<+T, +E> = Ok(value: T) | Err(error: E)
}
