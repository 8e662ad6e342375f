/** Option and Result: the value-level form of the exceptions the scripts raise and catch. */
module Wrappers {

  datatype Option<+T> = None | Some(value: T)

  datatype Result<+T, +E> = Success(value: T) | Failure(error: E)
}
