/** The optional value used wherever the store may hold "nothing": the session
    (`null` when logged out) and the result of a user lookup (`undefined`). */
module Wrappers {

  datatype Option<+T> = None | Some(value: T) {

    /** The held value, or `default` when there is none. */
    function GetOr(default: T): T {
      match this
      case Some(v) => v
      case None => default
    }
  }
}
