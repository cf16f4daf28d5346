/** Failure-carrying result types shared by the modules of the conversion model. */
module Wrappers {

  /** A value that may be absent: a regex that did not match, a missing field. */
  datatype Option<+T> = None | Some(value: T)

  /** The outcome of an operation that can throw: a value or the error thrown. */
  datatype Result<+T, +E> = Ok(value: T) | Err(error: E)
}
