/** Option and Result: missing values and error returns of the dashboard. */
module Wrappers {

  /** A value that may be missing (pandas NaN / Python None). */
  datatype Option<+T> = None | Some(value: T)

  /** The outcome of a computation that raises an exception in the source. */
  datatype Result<+T, +E> = Success(value: T) | Failure(error: E)
}
