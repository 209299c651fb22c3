/** Failure-compatible result types shared by the calculator modules. */
module Wrappers {

  /** A value that may be missing: a parsed number that was NaN, an absent table entry. */
  datatype Option<+T> = None | Some(value: T)

  /** The outcome of a computation that either succeeds with a value or fails with an error. */
  datatype Result<+R, +E> = Success(value: R) | Failure(error: E)
}
