/** Small value wrappers shared by the other modules. */
module Wrappers {

  /** A value that may be absent: a key missing from the session store, a
      character that does not occur in a string. */
  datatype Option<+T> = None | Some(value: T) {

    /** The wrapped value, or `default` when there is none (Python's
        `dict.get(key, default)`). */
    function GetOr(default: T): T
    {
      match this
      case Some(v) => v
      case None => default
    }
  }
}
