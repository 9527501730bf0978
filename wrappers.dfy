/** Option and Result, used for the places where the program unwraps a
    value that may be missing or panics on bad input. */
module Wrappers {

  datatype Option<+T> = None | Some(value: T)

  datatype Result<+R, +E> = Success(value: R) | Failure(error: E)
}
