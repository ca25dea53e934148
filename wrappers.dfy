/** The optional value used for the keyword arguments that may be omitted
    (`hours=None`, `minutes=None`) and for parse results. */
module Wrappers {

  datatype Option<T> = None | Some(value: T) {

    /** The carried value, or `default` when there is none. */
    function GetOr(default: T): T {
      match this
      case Some(v) => v
      case None => default
    }
  }
}
