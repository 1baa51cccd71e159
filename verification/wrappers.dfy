/** Failure-carrying result types shared by the model. */
module Wrappers {

  /** A value that may be absent; stands for a Java reference that may be null. */
  datatype Option<+T> = None | Some(value: T)

  /** Either a computed value or the reason the computation failed. */
  datatype Result<+R, +E> = Success(value: R) | Failure(error: E)
}
