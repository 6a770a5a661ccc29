/** Optional values: the model's stand-in for Python's `None`. */
module Options {

  datatype Option<+T> = None | Some(value: T) {

    /** Returns the value in Some, or a default when None. */
    function GetOr(default: T): T {
      match this
      case Some(v) => v
      case None => default
    }
  }
}
