/** Failure-compatible result types shared by the scaler model. */
module Wrappers {

  /** An optional value: the outcome of a decoder that may reject its input. */
  datatype Option<+T> = None | Some(value: T)

  /** A value or the error the source would return instead of it. */
  datatype Result<+R, +E> = Success(value: R) | Failure(error: E)
}
