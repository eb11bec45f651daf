/** Failure-carrying datatypes shared by the modules of the model. */
module Wrappers {

  /** A value that may be absent (JavaScript's `undefined`/`null`). */
  datatype Option<+T> = None | Some(value: T)

  /** Either a computed value or the error that stopped the computation
      (the model of a thrown `Error`). */
  datatype Result<+T, +E> = Success(value: T) | Failure(error: E)
}
