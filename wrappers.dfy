/** Option and Result: JavaScript's `null` returns and thrown errors as values. */
module Wrappers {

  /** A value or JavaScript's `null`. */
  datatype Option<+T> = None | Some(value: T)

  /** A value, or the error a call throws. */
  datatype Result<+T, +E> = Ok(value: T) | Err(error: E)
}
