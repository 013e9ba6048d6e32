/** Failure-carrying datatypes shared by the whole model. */
module Wrappers {

  /** A value that may be absent: a nullable column, an optional header. */
  datatype Option<+T> = None | Some(value: T)

  /** The outcome of an operation that either produces a value or raises an error. */
  datatype Result<+R, +E> = Success(value: R) | Failure(error: E)
}
