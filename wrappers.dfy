/** Failure-carrying values used wherever the Java code returns null or throws. */
module Wrappers {

  /** A value that may be absent: Java's `null`. */
  datatype Option<+T> = None | Some(value: T)

  /** The outcome of a Java call: a returned value, or the exception it threw. */
  datatype Result<+T, +E> = Ok(value: T) | Err(error: E)
}
