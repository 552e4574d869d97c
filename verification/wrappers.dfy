/** Failure-carrying values used in place of JavaScript's `undefined`, thrown
    errors and try/catch fallbacks. */
module Wrappers {

  /** A value that may be absent (`undefined` / `null` in the source). */
  datatype Option<+T> = None | Some(value: T)

  /** The result of an operation that either returns a value or throws an
      error carrying a message. */
  datatype Result<+R, +E> = Success(value: R) | Failure(error: E)

  /** A check that either passes or fails with an error, returning nothing
      useful on success (a function that returns `true` or throws). */
  datatype Outcome<+E> = Pass | Fail(error: E)
}
