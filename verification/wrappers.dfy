/** Failure-carrying result types: `Option` stands for the JavaScript `null`
    return of `decrypt`, `Result` for the configuration guard's fatal exit. */
module Wrappers {

  datatype Option<+T> = None | Some(value: T)

  datatype Result<+R, +E> = Success(value: R) | Failure(error: E)
}
