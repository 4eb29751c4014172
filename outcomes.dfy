/** Option and Result, the shapes used for Python's None and for exceptions. */
module Outcomes {

  /** Python's `None` or a present value. */
  datatype Option<+T> = None | Some(value: T)

  /** A value, or the exception that a Python routine raises instead of returning. */
  datatype Result<+T, +E> = Success(value: T) | Failure(error: E)
}
