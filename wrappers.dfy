/** Option and Result, used where the Java code returns null-able values,
    `Optional`s, or throws. */
module Wrappers {

  /** A value that may be absent: Java's `Optional`, or a reference that may be null. */
  datatype Option<+T> = None | Some(value: T)

  /** Either a value or the error the Java code would have thrown. */
  datatype Result<+T, +E> = Success(value: T) | Failure(error: E)
}
