/** Failure-carrying datatypes shared by the rest of the model. */
module Wrappers {

  /** A value that may be absent (a dictionary miss, a parse that failed). */
  datatype Option<+T> = None | Some(value: T)

  /** Either a value or the error a Python call would raise instead. */
  datatype Result<+R, +E> = Success(value: R) | Failure(error: E)
}
