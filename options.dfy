/** The optional value used for an absent PHP value: an unset field, an omitted argument,
    a capturing group that did not take part in a match. */
module Options {
  datatype Option<T> = None | Some(value: T) {
    /** The wrapped value, or `default` when there is none. */
    function GetOr(default: T): T {
      match this
      case Some(v) => v
      case None => default
    }
  }
}
