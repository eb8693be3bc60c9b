/** Option and Result, used in place of Java's null returns and thrown exceptions. */
module Wrappers {

  /** A value that may be absent (a Java reference that may be null). */
  datatype Option<+T> = None | Some(value: T)

  /** A computation that either produced a value or failed with an error that the caller must see. */
  datatype Result<+T, +E> = Ok(value: T) | Err(error: E)
}
