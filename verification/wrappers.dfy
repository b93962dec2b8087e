/** Option and Result datatypes used in place of Python's `None` and raised exceptions. */
module Wrappers {

  /** `None` stands for Python's `None`; `Some(v)` for a present value. */
  datatype Option<+T> = None | Some(value: T)

  /** `Failure(e)` stands for an exception raised with error `e`. */
  datatype Result<+R, +E> = Success(value: R) | Failure(error: E)
}
