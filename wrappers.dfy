/** The optional value used wherever the source reads something that may be absent
    (a URL parameter, an optional record field, a parse that fails). */
module Wrappers {

  datatype Option<+T> = None | Some(value: T) {

    /** The value if present, otherwise the given default. */
    function GetOr(default: T): T {
      match this
      case Some(v) => v
      case None => default
    }
  }
}
