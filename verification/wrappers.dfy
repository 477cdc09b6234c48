/** Optional values and results with an error channel, shared by the list and map models. */
module Wrappers {

  /** A value that may be absent: the model's stand-in for JavaScript's `null` and `undefined`. */
  datatype Option<+T> = None | Some(value: T)

  /** The outcome of an operation that may throw: either its value or the error it raises. */
  datatype Result<+T, +E> = Success(value: T) | Failure(error: E)
}
