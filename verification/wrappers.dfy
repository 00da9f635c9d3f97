/** The Some/None datatype the model uses wherever the extension returns
    `null` or reads a value that may be missing. */
module Wrappers {

  datatype Option<+T> = None | Some(value: T) {

    /** The wrapped value, or `default` when there is none (JavaScript's `x || d`
        on a value that is either present or absent). */
    function GetOr(default: T): T {
      match this
      case Some(v) => v
      case None => default
    }
  }
}
