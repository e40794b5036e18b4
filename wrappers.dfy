/** Wrappers used for the source's exceptions and early returns. */
module Wrappers {

  datatype Option<+T> = None | Some(value: T)

  /** The outcome of an operation that throws in the source: either its value or the reason it threw. */
  datatype Result<+T, +E> = Success(value: T) | Failure(error: E)
}
