/** The Option datatype used for nullable pointers and for results that may be missing. */
module Wrappers {

  /** A value that may be absent: the model's stand-in for a NULL pointer. */
  datatype Option<+T> = None | Some(value: T) {

    /** Returns the value held by Some, or `default` for None. */
    function GetOr(default: T): (r: T)
      ensures Some? ==> r == value
      ensures None? ==> r == default
    {
      match this
      case Some(v) => v
      case None => default
    }
  }
}
