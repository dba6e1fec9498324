/** Optional values and results, used wherever the scripts either produce a
    value or stop with a Python exception. */
module Wrappers {

  /** A present value, or the pandas/Python "missing" value (NaN, None). */
  datatype Option<+T> = None | Some(value: T)

  /** The value of a computation, or the exception that stops it. */
  datatype Result<+T, +E> = Success(value: T) | Failure(error: E)
}
