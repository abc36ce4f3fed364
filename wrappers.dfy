/** Optional values: a field that may be absent from a record, or the `undefined`
    that JavaScript's `Array.prototype.find` gives when nothing matches. */
module Wrappers {

  datatype Option<+T> = None | Some(value: T) {

    /** The value, or `default` when absent (JavaScript's `x || default` on an optional field). */
    function GetOr(default: T): T {
      match this
      case Some(v) => v
      case None => default
    }
  }
}
