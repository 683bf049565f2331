/** Optional values, standing in for Python's `None` and for lookups that may
    find nothing (a missing DOM element, a regex without a match). */
module Wrappers {

  datatype Option<+T> = None | Some(value: T) {

    /** The wrapped value, or `default` when there is none. */
    function GetOr(default: T): T {
      match this
      case Some(v) => v
      case None => default
    }
  }
}
