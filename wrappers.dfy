/** Option and Result datatypes: `null` values and thrown exceptions of the
    modelled code become explicit values. */
module Wrappers {

  datatype Option<+T> = None | Some(value: T)

  /** Success carries the value an operation returns; Failure the exception it throws. */
  datatype Result<+T, +E> = Success(value: T) | Failure(error: E)
}
