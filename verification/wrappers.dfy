/** The nullable values of the bridge (a `string?`, an `IPAddress?`, a
    "last allowed" timestamp that has not been set yet) are modelled as
    `Option`. */
module Wrappers {

  datatype Option<+T> = None | Some(value: T) {

    /** Returns the value, or `default` when there is none (C#'s `??`). */
    function GetOr(default: T): T {
      match this
      case Some(v) => v
      case None => default
    }
  }
}
