/** Failure-carrying wrappers used in place of Python's `None` and raised exceptions. */
module Wrappers {

  /** A value that may be absent, as returned by `dict.get`. */
  datatype Option<+T> = None | Some(value: T)

  /** Either a value or the error the Python code would raise. */
  datatype Result<+R, +E> = Success(value: R) | Failure(error: E)
}
