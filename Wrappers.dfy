/** Failure-carrying wrappers used to model the foreign capabilities of the server:
    an `Option` for calls that either produce a value or throw, and a `Result`
    for calls whose failure carries a message. */
module Wrappers {

  datatype Option<+T> = None | Some(value: T)

  datatype Result<+T> = Success(value: T) | Failure(message: string)
}
