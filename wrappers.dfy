/** Option and Result, used for the JavaScript `null` returns and thrown errors of the storage layer. */
module Wrappers {

  datatype Option<+T> = None | Some(value: T)

  datatype Result<+R, +E> = Success(value: R) | Failure(error: E)
}
