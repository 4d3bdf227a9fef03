/** Option and Result, the two failure-carrying shapes the application uses
    (Swift optionals and `Result<Success, Failure>`). */
module Wrappers {

  datatype Option<+T> = None | Some(value: T)

  datatype Result<+R, +E> = Success(value: R) | Failure(error: E)
}
