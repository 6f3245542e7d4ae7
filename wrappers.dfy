/** Option and Result, used for the null fallback of a coercion and for the
    exceptions a parse can raise. */
module Wrappers {

  /** A nullable value: `None` plays the part of Python's `None`. */
  datatype Option<+T> = None | Some(value: T)

  /** The outcome of an operation that may raise: `Failure` carries the reason. */
  datatype Result<+R, +E> = Success(value: R) | Failure(error: E)
}
