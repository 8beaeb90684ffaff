/** Option and Result: the "undefined or a value" and "thrown or returned"
    shapes of the modelled code, written as plain datatypes. */
module Wrappers {

  datatype Option<+T> = None | Some(value: T)

  /** The outcome of an operation that may throw: `Failure` carries the reason. */
  datatype Result<+R, +E> = Success(value: R) | Failure(error: E)
}
