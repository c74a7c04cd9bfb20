/** Option and Result: the "maybe null" and "may throw" of the mapper, as values. */
module Wrappers {

  /** A value that may be absent (a C# null). */
  datatype Option<+T> = None | Some(value: T)

  /** The outcome of a step that may throw: a value, or the error that aborts the call. */
  datatype Result<+T, +E> = Ok(value: T) | Err(error: E)
}
