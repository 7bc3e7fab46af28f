/** Option and Result values shared by the search modules. */
module Wrappers {

  /** A value that may be absent; Python's `None` is `None`. */
  datatype Option<+T> = None | Some(value: T)

  /** Either a returned value or the exception a call would raise. */
  datatype Result<+R, +E> = Success(value: R) | Failure(error: E)
}
