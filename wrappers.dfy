/** Option and Result, the failure-carrying values used across the model. */
module Wrappers {

  datatype Option<+T> = None | Some(value: T)

  /** A value or the error the source reports (a thrown exception, an error return). */
  datatype Result<+R, +E> = Success(value: R) | Failure(error: E)
}
