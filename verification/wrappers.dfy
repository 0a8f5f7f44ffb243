/** Failure-compatible result types shared by the whole model. */
module Wrappers {

  /** An optional value: the model's stand-in for a null pointer or a missing entry. */
  datatype Option<+T> = None | Some(value: T)

  /** A value or an error: the model's stand-in for a thrown exception. */
  datatype Result<+T, +E> = Success(value: T) | Failure(error: E)
}
