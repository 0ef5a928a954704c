/** Option, Result and Outcome: the values that stand in for Python's `None`
    and for exceptions raised by the panorama script. */
module Wrappers {

  datatype Option<+T> = None | Some(value: T)

  /** A computation that either produces a value or raises an error. */
  datatype Result<+R, +E> = Success(value: R) | Failure(error: E)

  /** A computation run for its side effects: it finishes, or it raises. */
  datatype Outcome<+E> = Pass | Fail(error: E)
}
