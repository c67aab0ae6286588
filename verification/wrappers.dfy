/** Optional values and results with an error, shared by every module. */
module Wrappers {

  /** A value that may be missing: Python's `None`, a JavaScript `undefined`. */
  datatype Option<+T> = None | Some(value: T)

  /** The outcome of an operation that may fail with an error of type `E`. */
  datatype Result<+T, +E> = Success(value: T) | Failure(error: E)
}
