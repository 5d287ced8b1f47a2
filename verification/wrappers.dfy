/** Optional values: `None` stands for JavaScript's null, undefined or a value that
    does not convert to a finite number, depending on where it is used. */
module Wrappers {

  datatype Option<+T> = None | Some(value: T) {

    /** Returns the wrapped value, or `default` when there is none. */
    function GetOr(default: T): T {
      match this
      case Some(v) => v
      case None => default
    }
  }
}
