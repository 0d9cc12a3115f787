/** Option and Result, the failure-carrying wrappers the event model uses. */
module Wrappers {

  /** A value that may be absent (Python's `Optional`, with `None` for absence). */
  datatype Option<+T> = None | Some(value: T)

  /** The outcome of a validator: the accepted value, or the error that would be raised. */
  datatype Result<+T, +E> = Ok(value: T) | Err(error: E)
}
