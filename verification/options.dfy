/** The optional-value type used for every "may not be there" result of the parser:
    a missing index, a regular expression that does not match, a field that is skipped. */
module Options {

  datatype Option<+T> = None | Some(value: T) {

    /** Returns the value held in Some, or the given default for None. */
    function GetOr(default: T): (r: T)
      ensures Some? ==> r == value
      ensures None? ==> r == default
    {
      match this
      case Some(v) => v
      case None => default
    }
  }
}
