/** The optional value used for nullable database columns and empty query results. */
module Wrappers {

  datatype Option<+T> = None | Some(value: T) {

    /** The value held by Some, or `default` when None. */
    function GetOr(default: T): T
    {
      match this
      case Some(v) => v
      case None => default
    }
  }
}
