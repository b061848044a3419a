/** Option and Result values shared by every module of the model. */
module Wrappers {

  /** A value that may be absent: JavaScript's `undefined`/`null`. */
  datatype Option<+T> = None | Some(value: T)

  /** The outcome of a storage call that can fail. */
  datatype Result<+T, +E> = Ok(value: T) | Err(error: E)
}
