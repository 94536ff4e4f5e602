/** Failure-carrying values used in place of the exceptions the modelled code raises. */
module Wrappers {

  datatype Option<+T> = None | Some(value: T)

  /** A computation that either yields a value or fails with an error. */
  datatype Result<+T, +E> = Ok(value: T) | Err(error: E)

  /** A computation without a value that either succeeds or fails with an error. */
  datatype Outcome<+E> = Pass | Fail(error: E)
}
