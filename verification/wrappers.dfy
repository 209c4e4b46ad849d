/** Option and Result, the failure-carrying values every other module returns
    where the program raises or gives up. */
module Wrappers {

  datatype Option<+T> = None | Some(value: T)

  datatype Result<+R, +E> = Success(value: R) | Failure(error: E)
}
