/** Failure-compatible wrappers used in place of C++ exceptions and end() iterators. */
module Wrappers {

  /** A value that may be absent: a null pointer, or a lookup that returns end(). */
  datatype Option<+T> = None | Some(value: T)

  /** The outcome of an operation that either produces a value or throws. */
  datatype Result<+R, +E> = Success(value: R) | Failure(error: E)

  /** The outcome of an operation that returns nothing or throws. */
  datatype Outcome<+E> = Pass | Fail(error: E)
}
