/** Option and Result, the two failure-carrying shapes the model uses. */
module Wrappers {

  datatype Option<+T> = None | Some(value: T)

  /** The value of an operation that may raise: either its value or the exception it raises. */
  datatype Result<+T, +E> = Success(value: T) | Failure(error: E)
}
