/** Option and Result, used wherever the source returns None or raises. */
module Wrappers {

  /** `None` stands for Python's `None` (and, for inputs, any non-string value). */
  datatype Option<+T> = None | Some(value: T)

  /** A value or the exception the source raises instead. */
  datatype Result<+T, +E> = Success(value: T) | Failure(error: E)
}
