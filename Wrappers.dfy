/** Failure-carrying results, used where the Java code returns null or throws. */
module Wrappers {

  datatype Option<+T> = None | Some(value: T)

  /** The outcome of a void Java method that may throw: Pass, or Fail with the exception. */
  datatype Outcome<+E> = Pass | Fail(error: E)

  /** The outcome of a value-returning Java method that may throw. */
  datatype Result<+R, +E> = Success(value: R) | Failure(error: E)
}
