/** Option stands in for Java's nullable references and for java.util.Optional. */
module Wrappers {

  datatype Option<+T> = None | Some(value: T) {

    /** Optional.orElse: the value if present, otherwise the default */
    function GetOr(default: T): T {
      match this
      case Some(v) => v
      case None => default
    }
  }
}
