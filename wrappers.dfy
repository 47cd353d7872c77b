/** Failure-carrying datatypes used in place of null and of thrown exceptions. */
module Wrappers {

  datatype Option<+T> = None | Some(value: T)

  /** A computation that yields a value or fails with an error (an exception in the source). */
  datatype Result<+R, +E> = Success(value: R) | Failure(error: E)

  /** A computation that yields nothing but may fail with an error. */
  datatype Outcome<+E> = Pass | Fail(error: E)
}
