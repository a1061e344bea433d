/** The outcome of a call into a collaborator that can fail. */
module Optional {

  /** `None` stands for a call that raised; `Some` carries what it returned. */
  datatype Option<+T> = None | Some(value: T) {

    /** The carried value, or `default` when the call raised. */
    function GetOr(default: T): (r: T)
      ensures Some? ==> r == value
      ensures None? ==> r == default
    {
      match this
      case Some(v) => v
      case None => default
    }
  }
}
