/** The optional value the buyer agent passes around: Python's `Optional[int]`,
    where `None` means "no value"; and the outcome of a call that may raise. */
module Wrappers {
  datatype Option<+T> = None | Some(value: T)

  /** A value, or the exception raised instead of returning one. */
  datatype Result<+T, +E> = Success(value: T) | Failure(error: E)
}
