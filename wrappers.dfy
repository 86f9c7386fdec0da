/** The optional and error-carrying values the logger model passes around. */
module Wrappers {

  /** A value that may be missing; stands for PHP's `null` where the source uses it. */
  datatype Option<+T> = None | Some(value: T)

  /** The outcome of an operation that either returns a value or throws. */
  datatype Result<+T, +E> = Ok(value: T) | Err(error: E)
}
