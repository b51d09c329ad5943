/** Optional values and results with an error, in place of Java's null and checked exceptions. */
module Wrappers {

  /** A value that may be absent; None plays the part of a Java null reference. */
  datatype Option<+T> = None | Some(value: T)

  /** Either a value or the error a Java method would have thrown. */
  datatype Result<+T, +E> = Success(value: T) | Failure(error: E)
}
