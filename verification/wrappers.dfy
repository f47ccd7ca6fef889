/** Failure-carrying values used across the model. */
module Wrappers {

  /** A value that may be absent: JavaScript's `null` for a nullable field. */
  datatype Option<T> = None | Some(value: T)

  /** The outcome of a computation that can throw: `Failure` carries the error message. */
  datatype Result<T> = Success(value: T) | Failure(message: string)
}
