/** Optional values and results with an error message. */
module Wrappers {

  /** A value that may be absent (JavaScript's `undefined`/`null`). */
  datatype Option<+T> = None | Some(value: T)

  /** The outcome of a step that may throw; `Failure` carries the error's message. */
  datatype Result<+R> = Success(value: R) | Failure(message: string)
}
