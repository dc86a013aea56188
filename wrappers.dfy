/** JavaScript's `null`/`undefined` for a value that may be absent. */
module Wrappers {

  datatype Option<+T> = None | Some(value: T) {

    /** `x ?? fallback` */
    function GetOr(fallback: T): T {
      match this
      case Some(v) => v
      case None => fallback
    }
  }
}
