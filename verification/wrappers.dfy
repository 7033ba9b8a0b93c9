/** Option and Result, the failure-carrying datatypes used in place of
    `null` and of thrown exceptions throughout the model. */
module Wrappers {

  datatype Option<+T> = None | Some(value: T)

  datatype Result<+R, +E> = Success(value: R) | Failure(error: E)
}
