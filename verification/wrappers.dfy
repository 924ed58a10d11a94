/** Option and Result types shared by the search engine and the problems. */
module Wrappers {

  /** Python's `None` next to a value. */
  datatype Option<+T> = None | Some(value: T)

  /** A value, or the exception the source raises instead of returning. */
  datatype Result<+R, +E> = Success(value: R) | Failure(error: E)
}
