/** Option and Result types shared by the whole model. */
module Wrappers {

  datatype Option<+T> = None | Some(value: T)

  /** The outcome of an operation that may raise in the modelled program. */
  datatype Result<+T, +E> = Success(value: T) | Failure(error: E)
}
