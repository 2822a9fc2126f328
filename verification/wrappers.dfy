/** Optional values, standing in for JavaScript's `undefined` and for
    "could not be parsed" outcomes. */
module Wrappers {

  datatype Option<+T> = None | Some(value: T) {

    /** Returns the value in Some or the default if None. */
    function GetOr(default: T): T {
      match this
      case Some(v) => v
      case None => default
    }
  }
}
