/** Optional values and results with an error, as the handlers and services return them. */
module Wrappers {

  /** A value that may be absent (Python's `None`, JavaScript's `null`/`undefined`). */
  datatype Option<+T> = None | Some(value: T)

  /** The outcome of a request handler: the value it returns, or the HTTP error it raises. */
  datatype Result<+R, +E> = Success(value: R) | Failure(error: E)
}
