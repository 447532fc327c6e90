/** Failure-compatible wrappers for the cache model: `Option` stands for a
    Java reference that may be `null`, `Result` for a constructor that may
    throw. */
module Wrappers {

  /** A value that may be absent (Java's `null`). */
  datatype Option<+T> = None | Some(value: T)

  /** A value, or the error a Java constructor would have thrown instead. */
  datatype Result<+R, +E> = Success(value: R) | Failure(error: E)
}
