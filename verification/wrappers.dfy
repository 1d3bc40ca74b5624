/** The Option and Result datatypes used throughout the model: `Option` stands in
    for a Java reference that may be null, `Result` for a call that may end in
    an exception that escapes the caller. */
module Wrappers {

  datatype Option<+T> = None | Some(value: T)

  datatype Result<+R, +E> = Success(value: R) | Failure(error: E)
}
