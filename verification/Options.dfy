/** The absent-or-present value used where the source has `undefined`, a
    cancelled picker or a handler that returns early. */
module Options {

  datatype Option<+T> = None | Some(value: T) {

    /** The carried value, or `default` when there is none. */
    function GetOr(default: T): T {
      match this
      case Some(v) => v
      case None => default
    }
  }
}
