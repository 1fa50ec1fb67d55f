/** Failure-carrying wrappers used by the whole model. */
module Wrappers {

  /** A value that may be absent: the source's `None` or a present value. */
  datatype Option<T> = None | Some(value: T)

  /** The outcome of an operation that either returns a value or raises an error. */
  datatype Result<T, E> = Success(value: T) | Failure(error: E)
}
