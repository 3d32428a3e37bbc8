/** Optional values: JavaScript's `null`, and a key absent from a partial
    record (a key present with the value `undefined` is not modelled). */
module Wrappers {

  datatype Option<+T> = None | Some(value: T) {

    /** The value, or `default` when there is none (the `x ?? default` idiom). */
    function GetOr(default: T): T {
      match this
      case Some(v) => v
      case None => default
    }
  }
}
