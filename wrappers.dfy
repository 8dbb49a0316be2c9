/** Optional values (the source's `undefined`) and results with an error (its `throw`). */
module Wrappers {

  /** `None` plays the part of `undefined`: "this slot holds nothing". */
  datatype Option<+T> = None | Some(value: T)

  /** The outcome of an operation that either returns a value or throws an error. */
  datatype Result<+T, +E> = Ok(value: T) | Err(error: E)
}
