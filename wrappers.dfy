/** Option and Result, the two failure-compatible wrappers the model uses for
    nullable values and for the error paths of the program. */
module Wrappers {

  /** A value that may be absent: a null cell, or an optional field. */
  datatype Option<+T> = None | Some(value: T)

  /** Either a result or the error that stops the operation. */
  datatype Result<+T, +E> = Ok(value: T) | Err(error: E)
}
