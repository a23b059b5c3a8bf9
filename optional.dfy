/** A value that may be missing: the model's stand-in for a C# `null`. */
module Optional {

  datatype Option<+T> = None | Some(value: T) {

    /** The value, or `default` when it is missing (the source's `x ?? default` pattern). */
    function GetOr(default: T): T
    {
      match this
      case Some(v) => v
      case None => default
    }
  }
}
