/** Failure-carrying datatypes used throughout the assembler model. */
module Wrappers {

  datatype Option<+T> = None | Some(value: T)

  /** A computation that yields a value or stops with an error. */
  datatype Result<+T, +E> = Ok(value: T) | Err(error: E)

  /** A step that only changes state: it either passes or stops with an error. */
  datatype Outcome<+E> = Pass | Fail(error: E)
}
