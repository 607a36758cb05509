/** The absent-or-present value used where the application stores `null`
    (no open note, no drag in progress, no status toast) or where a lookup
    such as `Array.prototype.find` may come back empty. */
module Optional {

  datatype Option<+T> = None | Some(value: T) {

    /** The value, or `default` when there is none. */
    function GetOr(default: T): T {
      match this
      case Some(v) => v
      case None => default
    }
  }
}
