/** Optional values and results with an error, as the model's modules use them. */
module Wrappers {

  /** A value that may be absent: JavaScript's `undefined`/`null` beside a real value. */
  datatype Option<+T> = None | Some(value: T)

  /** The outcome of an operation that either resolves to a value or throws an error. */
  datatype Result<+T, +E> = Ok(value: T) | Err(error: E)
}
