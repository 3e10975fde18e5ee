/** A plain Option datatype used across the model. */
module Wrappers {

  /** Some value, or nothing (JavaScript's `null`/`undefined`, a failed foreign call). */
  datatype Option<+T> = None | Some(value: T) {

    /** The carried value, or `default` when there is none. */
    function GetOr(default: T): T
    {
      match this
      case Some(v) => v
      case None => default
    }
  }
}
