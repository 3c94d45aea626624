/** Failure-carrying result types shared by the other modules. */
module Wrappers {

  /** A value that may be missing: a failed crawl step, an absent metric. */
  datatype Option<+T> = None | Some(value: T)

  /** The outcome of an operation that can raise. */
  datatype Result<+R, +E> = Success(value: R) | Failure(error: E)
}
