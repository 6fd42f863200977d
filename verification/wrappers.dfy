/** Failure-carrying result types shared by every module of the model. */
module Wrappers {

  /** A value that may be absent (Python's `None`). */
  datatype Option<+T> = None | Some(value: T)

  /** The outcome of an operation that the source either completes or aborts
      with an exception. */
  datatype Result<+R, +E> = Success(value: R) | Failure(error: E)
}
