/** Failure-carrying datatypes used throughout the model. */
module Wrappers {

  /** A value that may be missing: a SQL `fetchone()` that found nothing, a
      dict key that is absent, a parse that failed. */
  datatype Option<+T> = None | Some(value: T)

  /** The outcome of a call that either returns a value or raises an error. */
  datatype Result<+T, +E> = Success(value: T) | Failure(error: E)
}
