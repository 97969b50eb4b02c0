/** Option and Result datatypes shared by the model. */
module Wrappers {

  /** A value that may be absent (JavaScript's `undefined` / `null`). */
  datatype Option<T> = None | Some(value: T)

  /** The outcome of an operation that either produces a value or reports an error. */
  datatype Result<T, E> = Success(value: T) | Failure(error: E)
}
