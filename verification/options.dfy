/** An optional value: the Dafny counterpart of a Swift optional (`T?`),
    where `None` plays the role of `nil`. */
module Options {

  datatype Option<+T> = None | Some(value: T) {

    /** The wrapped value, or `default` when there is none (Swift's `??`). */
    function GetOr(default: T): T {
      match this
      case Some(v) => v
      case None => default
    }
  }
}
