/** Option and Result, the failure-carrying values the model returns where the
    source raises an exception or reads a key that may be missing. */
module Wrappers {

  datatype Option<+T> = None | Some(value: T)

  datatype Result<+T, +E> = Success(value: T) | Failure(error: E)
}
