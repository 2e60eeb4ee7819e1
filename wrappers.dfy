/** Optional values and results with an error, as used by the board rules. */
module Wrappers {

  /** A slot that may be empty (Python's `None`). */
  datatype Option<+T> = None | Some(value: T)

  /** The outcome of an operation that can be refused. */
  datatype Result<+T, +E> = Ok(value: T) | Err(error: E)
}
