/** The option and result types shared by every module of the chat model. */
module Wrappers {

  /** A value that may be absent: JavaScript's `undefined`/`null` results. */
  datatype Option<+T> = None | Some(value: T)

  /** A computation that either produced a value or failed with an error. */
  datatype Result<+T, +E> = Ok(value: T) | Err(error: E)
}
