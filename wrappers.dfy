/** The optional value used for inputs that may be missing: a cancelled file
    dialog, or a text box whose contents are not an integer. */
module Wrappers {

  datatype Option<+T> = None | Some(value: T) {

    /** The value, or `default` when there is none. */
    function GetOr(default: T): T {
      match this
      case Some(v) => v
      case None => default
    }
  }
}
