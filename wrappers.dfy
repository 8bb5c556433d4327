/** Option and Result, the two failure-compatible wrappers the model uses. */
module Wrappers {

  /** A nullable column or an optional field of an input: `None` is SQL NULL / `undefined`. */
  datatype Option<+T> = None | Some(value: T)

  /** The outcome of an operation that can throw: `Err` carries what is rethrown. */
  datatype Result<+T, +E> = Ok(value: T) | Err(error: E)
}
