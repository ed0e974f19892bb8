/** The optional value used wherever the source works with a reference that may be null. */
module Options {

  datatype Option<+T> = None | Some(value: T) {

    /** The wrapped value, or `default` when there is none (C#'s `??`). */
    function GetOr(default: T): (r: T)
      ensures Some? ==> r == value
      ensures None? ==> r == default
    {
      match this
      case Some(v) => v
      case None => default
    }
  }
}
