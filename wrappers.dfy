/** Option and Result, the shapes of Ruby's `nil` returns and raised errors. */
module Wrappers {

  /** A value that may be absent (Ruby's `nil`). */
  datatype Option<+T> = None | Some(value: T)

  /** The outcome of an operation that either yields a value or raises with a message. */
  datatype Result<+T, +E> = Success(value: T) | Failure(error: E)
}
