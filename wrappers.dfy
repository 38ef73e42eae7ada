/** Failure-carrying results shared by every module of the model. */
module Wrappers {

  datatype Option<+T> = None | Some(value: T)

  /** A value or the error that the source reports (by a panic, an exception or a false return). */
  datatype Result<+T, +E> = Success(value: T) | Failure(error: E)
}
