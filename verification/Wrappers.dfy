/** The two result shapes the model shares. */
module Wrappers {
  datatype Option<+T> = None | Some(value: T)

  /** A computation that ends in a value or in one of the source's exceptions. */
  datatype Result<+T, +E> = Ok(value: T) | Err(error: E)
}
