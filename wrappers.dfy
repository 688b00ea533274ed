/** Failure-carrying results used wherever the Java code throws or returns null. */
module Wrappers {

  /** A Java reference that may be null. */
  datatype Option<+T> = None | Some(value: T)

  /** A value, or the exception the Java code would have thrown instead. */
  datatype Result<+T, +E> = Ok(value: T) | Err(error: E)

  /** A void call that returns normally or throws. */
  datatype Outcome<+E> = Pass | Fail(error: E)
}
