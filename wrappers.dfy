/** Option and Result values for the error paths of the bot's operations. */
module Wrappers {

  datatype Option<+T> = None | Some(value: T)

  /** The outcome of an operation that either succeeds or throws an error carrying a message. */
  datatype Result<+T, +E> = Success(value: T) | Failure(error: E)
}
