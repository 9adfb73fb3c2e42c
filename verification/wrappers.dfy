/** Optional values and results with an error, used wherever the scraper
    works with `None` or can raise. */
module Wrappers {

  /** A value that may be absent, the model of Python's `None`. */
  datatype Option<+T> = None | Some(value: T) {

    /** The value if present, otherwise `default` (Python's `x or default`
        when `x` is a string that may be `None`). */
    function GetOr(default: T): (r: T)
      ensures Some? ==> r == value
      ensures None? ==> r == default
    {
      match this
      case Some(v) => v
      case None => default
    }
  }

  /** The outcome of a computation that can raise. */
  datatype Result<+T, +E> = Success(value: T) | Failure(error: E)
}
