/** Option and Result, the two failure-carrying wrappers the model uses for
    missing cells (pandas NA) and for the exceptions that abort a run. */
module Wrappers {

  datatype Option<+T> = None | Some(value: T)

  datatype Result<+R, +E> = Success(value: R) | Failure(error: E)
}
