/** Option and Result values that stand for Java's null / Optional and for thrown exceptions. */
module Wrappers {

  /** A value that may be absent: Java's `null` reference or `Optional.empty()`. */
  datatype Option<+T> = None | Some(value: T)

  /** The outcome of a call that either returns a value or throws. */
  datatype Result<+T, +E> = Ok(value: T) | Err(error: E)
}
