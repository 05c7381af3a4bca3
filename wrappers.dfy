/** Failure-carrying return values shared by the parsers. */
module Wrappers {

  /** The absence or presence of a value; a parser that rejects returns None. */
  datatype Option<+T> = None | Some(value: T)

  /** A value or the error that stopped its computation. */
  datatype Result<+T, +E> = Success(value: T) | Failure(error: E)
}
