/** The optional value used wherever the page script gets `null` back from the
    browser: a missing element, an empty storage slot. */
module Wrappers {

  datatype Option<+T> = None | Some(value: T) {

    /** Reads an optional value, falling back to `default` (the script's `x || 0`). */
    function GetOr(default: T): T {
      match this
      case Some(v) => v
      case None => default
    }
  }
}
