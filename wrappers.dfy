/** The conventional optional value, used for JavaScript's `undefined`,
    for `indexOf`'s `-1` and for `find` returning nothing. */
module Wrappers {

  datatype Option<+T> = None | Some(value: T) {

    /** The value, or `default` when there is none (JavaScript's `x ?? default`). */
    function GetOr(default: T): T {
      match this
      case Some(v) => v
      case None => default
    }
  }
}
