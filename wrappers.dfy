/** Failure-carrying wrappers shared by the whole model. */
module Wrappers {

  /** A value that may be absent (JavaScript `null`/`undefined`). */
  datatype Option<+T> = None | Some(value: T)

  /** The outcome of a call that may throw: its value, or the thrown error's message. */
  datatype Outcome<+T> = Ok(value: T) | Fail(msg: string)

  /** Either a result or the error that aborts the whole operation. */
  datatype Result<+T, +E> = Success(value: T) | Failure(error: E)
}
