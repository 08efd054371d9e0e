/** Option and Result: an absent value, and a value or the error that was thrown instead. */
module Wrappers {

  /** An optional value: None when absent. */
  datatype Option<+T> = None | Some(value: T)

  /** A computed value, or the error raised instead of it. */
  datatype Result<+T, +E> = Success(value: T) | Failure(error: E)
}
