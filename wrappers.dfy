/** Optional values and results with an error, used wherever the script
    tests `is None` or where a step can fail. */
module Wrappers {

  datatype Option<+T> = None | Some(value: T) {

    /** The value inside, or `default` when there is none. */
    function GetOr(default: T): T
    {
      match this
      case Some(v) => v
      case None => default
    }
  }

  datatype Result<+R, +E> = Success(value: R) | Failure(error: E)
}
