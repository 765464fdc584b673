/** Option and Result, for the places where the Java code returns null or throws. */
module Wrappers {

  /** A value, or None where the Java code returns null. */
  datatype Option<+T> = None | Some(value: T)

  /** A value, or the exception the Java code throws instead of returning one. */
  datatype Result<+R, +E> = Success(value: R) | Failure(error: E)
}
