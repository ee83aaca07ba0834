/** Failure-compatible wrappers used in place of Python's `None` and exceptions. */
module Wrappers {

  /** A value that may be absent (a file that may not exist, a converter that wrote nothing). */
  datatype Option<T> = None | Some(value: T)

  /** The outcome of a step that may raise: the value it returns, or the message of the exception. */
  datatype Result<R, E> = Success(value: R) | Failure(error: E)
}
