/** The optional value used for the source's nullable columns and `None` results. */
module Wrappers {

  datatype Option<+T> = None | Some(value: T) {

    /** The value itself, or `default` for None. */
    function GetOr(default: T): T
    {
      match this
      case Some(v) => v
      case None => default
    }
  }
}
