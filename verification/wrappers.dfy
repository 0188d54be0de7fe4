/** Optional values, used for the lookups that the store answers with `null`. */
module Wrappers {

  datatype Option<+T> = None | Some(value: T) {

    /** Returns the value in Some, or the given default on None. */
    function GetOr(default: T): T {
      match this
      case Some(v) => v
      case None => default
    }
  }
}
