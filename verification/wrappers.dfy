/** Failure-carrying return values used in place of Python's exceptions and
    of `dict.get` with a default. */
module Wrappers {

  /** An entry the loaded artifact may lack, or a split that found no
      separator. */
  datatype Option<+T> = None | Some(value: T)

  /** Either a computed value or the error that aborted the computation. */
  datatype Result<+R, +E> = Success(value: R) | Failure(error: E)
}
