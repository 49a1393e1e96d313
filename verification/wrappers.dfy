/** The optional value used wherever the relay's Python code returns `None`
    for "nothing there" (no match, no style, no variable). */
module Wrappers {

  datatype Option<+T> = None | Some(value: T) {

    /** The value, or `default` when there is none. */
    function GetOr(default: T): T {
      match this
      case Some(v) => v
      case None => default
    }
  }
}
