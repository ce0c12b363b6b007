/** Failure-carrying values: PHP's `false`/`null` results and thrown exceptions. */
module Wrappers {

  /** A value that may be absent (PHP's `false` or `null` result). */
  datatype Option<+T> = None | Some(value: T)

  /** A value or the message of the exception that was thrown instead. */
  datatype Result<+T, +E> = Success(value: T) | Failure(error: E)
}
