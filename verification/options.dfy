/** A value that a C function may return as NULL. */
module Options {

  /** `None` stands for a NULL pointer (or "not found"), `Some(v)` for a present value. */
  datatype Option<+T> = None | Some(value: T) {

    /** The value, or `default` when absent (the C idiom `p ? p : default`). */
    function GetOr(default: T): T {
      match this
      case Some(v) => v
      case None => default
    }
  }
}
