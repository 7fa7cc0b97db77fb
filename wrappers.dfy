/** Failure-carrying values used where PHP returns `false` or throws. */
module Wrappers {

  /** A value that may be absent: PHP functions that return `false` on failure. */
  datatype Option<+T> = None | Some(value: T) {

    /** The value, or `default` when absent. */
    function GetOr(default: T): (v: T)
    {
      match this
      case Some(v) => v
      case None => default
    }
  }

  /** The outcome of an operation that either completes or throws `error`. */
  datatype Outcome<+E> = Pass | Fail(error: E)
}
