/** Absent-or-present values: the model's stand-in for C#'s `null` results and nullable parameters. */
module Wrappers {

  datatype Option<+T> = None | Some(value: T) {

    /** The value, or `default` when absent (C#'s `x == null ? default : x.Value`). */
    function GetOr(default: T): T {
      match this
      case Some(v) => v
      case None => default
    }
  }
}
