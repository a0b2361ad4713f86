/** Optional and fallible values: `Option` stands for a pandas cell that may
    hold NaN, `Result` for a computation that may raise. */
module Wrappers {

  /** A nullable value; `None` plays the part of pandas' NaN. */
  datatype Option<+T> = None | Some(value: T)

  /** The value of a computation, or the exception it raises. */
  datatype Result<+R, +E> = Success(value: R) | Failure(error: E)
}
