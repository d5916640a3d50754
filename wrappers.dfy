/** Failure-compatible result types shared by the model. */
module Wrappers {

  /** A value or nothing; `None` stands for a nil byte slice. */
  datatype Option<+T> = None | Some(value: T)

  /** The value of a call that may fail with an error of type E. */
  datatype Result<+T, +E> = Success(value: T) | Failure(error: E)
}
