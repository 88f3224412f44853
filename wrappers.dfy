/** Failure-carrying result types shared by the modules of this model. */
module Wrappers {

  /** An optional value: `None` where the source has no value to give. */
  datatype Option<+T> = None | Some(value: T)

  /** A value or the reason there is none (the source's exceptions and error returns). */
  datatype Result<+T, +E> = Success(value: T) | Failure(error: E)
}
