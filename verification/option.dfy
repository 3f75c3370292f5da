/** Optional values (Python's `None`, a missing dict key) and results of operations that can raise. */
module Optional {

  datatype Option<+T> = None | Some(value: T) {

    /** The wrapped value, or `default` when there is none (Python's `d.get(k, default)`). */
    function GetOr(default: T): T {
      match this
      case Some(v) => v
      case None => default
    }
  }

  /** A value, or the exception an operation raised instead. */
  datatype Result<+T, +E> = Ok(value: T) | Err(error: E)
}
