/** Failure-compatible wrappers standing for Java's null returns and thrown exceptions. */
module Wrappers {

  /** A value that may be absent: Java's `null` reference. */
  datatype Option<+T> = None | Some(value: T)

  /** The normal return of an operation, or the exception it throws. */
  datatype Result<+R, +E> = Success(value: R) | Failure(error: E)

  /** An operation returning `void` that completes or throws. */
  datatype Outcome<+E> = Pass | Fail(error: E)
}
