/** Optional values and results, standing for Python's None and for raised ValueErrors. */
module Wrappers {

  datatype Option<+T> = None | Some(value: T) {
    /** `x or default` / `dict.get(key, default)` on an optional value. */
    function GetOr(default: T): T
    {
      match this
      case Some(v) => v
      case None => default
    }
  }

  datatype Result<+R, +E> = Ok(value: R) | Err(error: E)
}
