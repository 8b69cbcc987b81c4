/** Python's `None`-or-value convention as a datatype. */
module Optional {

  /** `None` is Python's `None`; `Some(v)` is any other value. */
  datatype Option<+T> = None | Some(value: T) {

    /** The idiom `x if x is not None else fallback`: only `None` counts as absent,
        so `False` and `""` are real values. */
    function OrElse(fallback: T): (r: T)
      ensures Some? ==> r == value
      ensures None? ==> r == fallback
    {
      match this
      case Some(v) => v
      case None => fallback
    }
  }
}
