/** Success/failure values standing in for Python's exceptions and `None`. */
module Wrappers {

  datatype Option<+T> = None | Some(value: T)

  /** `Failure(e)` stands for an exception whose `str(e)` is `e`. */
  datatype Result<+R, +E> = Success(value: R) | Failure(error: E)
}
