/** Failure-carrying datatypes shared by the contact model. */
module Wrappers {

  /** A value that may be absent; stands for Python's `None`. */
  datatype Option<+T> = None | Some(value: T)

  /** A value or the error that prevented computing it; stands for a raised exception. */
  datatype Result<+R, +E> = Success(value: R) | Failure(error: E)
}
