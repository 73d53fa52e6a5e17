/** Optional values and success/failure results, shared by every module of the model. */
module Wrappers {

  /** An absent or present value: `null`/`undefined`/`None` on the source side. */
  datatype Option<+T> = None | Some(value: T) {

    /** The present value, or `default` when absent (Rust's `unwrap_or`). */
    function GetOr(default: T): (r: T)
      ensures Some? ==> r == value
      ensures None? ==> r == default
    {
      match this
      case Some(v) => v
      case None => default
    }
  }

  /** The outcome of an operation that may fail with an error value. */
  datatype Result<+R, +E> = Success(value: R) | Failure(error: E)
}
