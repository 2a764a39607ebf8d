/** The optional-value type shared by the modules of this model. */
module Wrappers {

  /** A value that may be absent: a missing header, an unset field, a map miss. */
  datatype Option<+T> = None | Some(value: T) {

    /** The wrapped value, or `default` when there is none. */
    function GetOr(default: T): T {
      match this
      case Some(v) => v
      case None => default
    }
  }
}
