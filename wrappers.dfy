/** Failure-compatible wrappers: Java's nullable references and thrown exceptions. */
module Wrappers {

  /** A nullable Java reference or column: `None` is `null`. */
  datatype Option<+T> = None | Some(value: T)

  /** The outcome of an operation that either completes or throws `error`. */
  datatype Outcome<+E> = Pass | Fail(error: E)

  /** The value an operation returns, or the error it throws. */
  datatype Result<+T, +E> = Ok(value: T) | Err(error: E)
}
