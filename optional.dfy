/** A value that may be missing: PHP's `null` / `?T`. */
module Optional {

  datatype Option<+T> = None | Some(value: T) {

    /** The value, or `default` when missing (PHP's `??` operator). */
    function GetOr(default: T): T {
      match this
      case Some(v) => v
      case None => default
    }
  }
}
