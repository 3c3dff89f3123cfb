/** Failure-compatible result types shared by the model's modules. */
module Wrappers {

  datatype Option<+T> = None | Some(value: T)

  /** Either a value or the error the original program would raise. */
  datatype Result<+R, +E> = Success(value: R) | Failure(error: E)
}
