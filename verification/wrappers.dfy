/** Optional values and results, standing in for Java's nullable references,
    `java.util.Optional` and thrown exceptions. */
module Wrappers {

  /** A value that may be absent: `None` plays the part of Java's `null`
      and of an empty `Optional`. */
  datatype Option<+T> = None | Some(value: T)

  /** The outcome of a call that either returns a value or fails. */
  datatype Result<+R, +E> = Success(value: R) | Failure(error: E)
}
