/** Option and Result values used by the catalog model. */
module Wrappers {

  /** A value that may be absent (JavaScript's `undefined` / `null`). */
  datatype Option<+T> = None | Some(value: T)

  /** The outcome of an operation that either succeeds with a value or is refused. */
  datatype Result<+R, +E> = Ok(value: R) | Err(error: E)
}
