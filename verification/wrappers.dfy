/** `Option` stands for the JavaScript `null` returns of the league code,
    `Result` for a call that throws. */
module Wrappers {

  datatype Option<+T> = None | Some(value: T)

  datatype Result<+R, +E> = Success(value: R) | Failure(error: E)
}
