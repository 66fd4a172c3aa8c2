/** Failure-carrying wrappers: an optional value and a success-or-error result. */
module Wrappers {

  /** A value that may be absent, as an omitted command-line argument is. */
  datatype Option<+T> = None | Some(value: T)

  /** The outcome of a computation that either succeeds with a value or fails with an error. */
  datatype Result<+R, +E> = Success(value: R) | Failure(error: E)
}
