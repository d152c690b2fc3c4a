/** Option, Result and Outcome: the model's stand-ins for Java's null and exceptions. */
module Wrappers {

  /** `None` plays the part of a Java `null`. */
  datatype Option<+T> = None | Some(value: T)

  /** A value, or the error that aborted the computation. */
  datatype Result<+T, +E> = Ok(value: T) | Err(error: E)

  /** A computation that returns nothing, or the error that aborted it. */
  datatype Outcome<+E> = Pass | Fail(error: E)
}
