/** Failure-carrying wrappers shared by the model: `Option` stands for a
    JavaScript value that may be `null`/`undefined`, `Result` for a value that
    is either a success or an error object. */
module Wrappers {

  datatype Option<+T> = None | Some(value: T)

  datatype Result<+R, +E> = Success(value: R) | Failure(error: E)
}
