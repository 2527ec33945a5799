/** The `null`/`undefined`-or-value shape shared by every module: a storage
    read that finds nothing, a DOM attribute that is absent, a lookup that
    yields `undefined`. */
module Options {

  datatype Option<+T> = None | Some(value: T) {

    /** The value, or `default` when there is none (JavaScript's `x ?? d`). */
    function GetOr(default: T): T {
      match this
      case Some(v) => v
      case None => default
    }
  }
}
