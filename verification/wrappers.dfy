/** The optional value used where the source either has a reference or null,
    or either finishes or throws. */
module Wrappers {

  datatype Option<+T> = None | Some(value: T) {

    /** The held value, or `default` when there is none. */
    function GetOr(default: T): T {
      match this
      case Some(v) => v
      case None => default
    }
  }
}
