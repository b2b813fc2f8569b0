/** Option and Result, the shapes the Python code encodes with `None` and with exceptions. */
module Wrappers {

  /** `Optional[T]` in the Python source: a value or `None`. */
  datatype Option<+T> = None | Some(value: T)

  /** A computation that either produces a value or raises an error. */
  datatype Result<+T, +E> = Success(value: T) | Failure(error: E)
}
