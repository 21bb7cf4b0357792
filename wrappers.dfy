/** Optional values, standing in for Python's None. */
module Wrappers {

  datatype Option<T> = None | Some(value: T) {

    /** `x or default` for a value that may be None. */
    function GetOr(default: T): T {
      match this
      case Some(v) => v
      case None => default
    }
  }
}
