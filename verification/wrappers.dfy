/** Failure-carrying result types shared by every module of the model. */
module Wrappers {

  datatype Option<+T> = None | Some(value: T)

  /** The outcome of an operation that the original program can abandon:
      by throwing, by returning an error code, or by failing an assert. */
  datatype Result<+T, +E> = Ok(value: T) | Err(error: E)
}
