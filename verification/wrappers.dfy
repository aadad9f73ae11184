/** Failure-carrying result types shared by the whole model. */
module Wrappers {

  /** A value that may be absent (JavaScript's `undefined` / `null`). */
  datatype Option<+T> = None | Some(value: T)

  /** The outcome of an operation that either returns a value or throws. */
  datatype Result<+T, +E> = Ok(value: T) | Err(error: E)
}
