/** The optional-value type used for request fields and parser results. */
module Wrappers {

  /** `None` stands for JavaScript's `undefined` (a field that was not sent, a result that is NaN). */
  datatype Option<+T> = None | Some(value: T) {

    /** The carried value, or `default` when there is none. */
    function GetOr(default: T): T {
      match this
      case Some(v) => v
      case None => default
    }
  }
}
