/** Option and Result: JavaScript's `undefined` and its thrown errors, made explicit. */
module Wrappers {

  /** A value that may be absent (JavaScript `undefined`). */
  datatype Option<+T> = None | Some(value: T)

  /** A computation that either produces a value or throws an error. */
  datatype Result<+R, +E> = Success(value: R) | Failure(error: E)
}
