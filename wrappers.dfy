/** Option and Result values shared by the other modules. */
module Wrappers {

  /** A value that may be absent, like Python's `None` or a missing XML attribute. */
  datatype Option<+T> = None | Some(value: T)

  /** The outcome of an operation that either succeeds or raises an error. */
  datatype Result<+R, +E> = Success(value: R) | Failure(error: E)
}
