/** Option and Result datatypes for the failure paths of the link layer. */
module Wrappers {

  /** A value that may be absent (a keyword argument left at its default). */
  datatype Option<+T> = None | Some(value: T)

  /** The outcome of an operation that may raise in the modelled program. */
  datatype Result<+R, +E> = Success(value: R) | Failure(error: E)
}
