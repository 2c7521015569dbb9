/** The optional value the dashboard writes as `x | undefined` or `x | null`. */
module Wrappers {

  datatype Option<+T> = None | Some(value: T) {

    /** `opt ?? default`: the carried value, or the default when there is none. */
    function GetOr(default: T): T
    {
      match this
      case Some(v) => v
      case None => default
    }
  }
}
