/** Failure-carrying values shared by the whole model. */
module Wrappers {

  /** A value that may be absent: an unset (nil) field of the protocol's messages. */
  datatype Option<+T> = None | Some(value: T)

  /** The result of an operation that returns a value or fails with an error. */
  datatype Result<+R, +E> = Success(value: R) | Failure(error: E)

  /** The result of an operation that only succeeds or fails (a bare `error` return). */
  datatype Outcome<+E> = Pass | Fail(error: E)
}
