/** Failure-carrying results shared by the utilities. */
module Wrappers {

  /** An optional value: `None` stands for Python's "nothing found" (an empty filter, a missing id). */
  datatype Option<+T> = None | Some(value: T)

  /** A value or the error that stopped the computation. */
  datatype Result<+T, +E> = Success(value: T) | Failure(error: E)
}
