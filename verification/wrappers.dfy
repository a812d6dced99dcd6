/** Failure-carrying result types used by the framing model. */
module Wrappers {

  /** A value that may be missing: the result of a decoder that can reject its input. */
  datatype Option<+T> = None | Some(value: T)

  /** The outcome of an operation that either yields a value or raises an error. */
  datatype Result<+T, +E> = Ok(value: T) | Err(error: E)
}
