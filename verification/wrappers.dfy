/** The optional-value datatype used wherever the source has `null` / `undefined`. */
module Wrappers {

  /** `None` stands for JavaScript's `null` or `undefined`; `Some(v)` for a present value. */
  datatype Option<+T> = None | Some(value: T) {

    /** The value, or `default` when absent (the source's `x ?? default` / `x || default`). */
    function GetOr(default: T): T {
      match this
      case Some(v) => v
      case None => default
    }
  }
}
