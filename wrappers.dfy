/** Failure-carrying datatypes shared by every module of the model. */
module Wrappers {

  /** Rust's `Option`. */
  datatype Option<+T> = None | Some(value: T) {
    /** `unwrap_or`: the value, or `default` when there is none. */
    function GetOr(default: T): T {
      match this
      case Some(v) => v
      case None => default
    }
  }

  /** The end of a computation that may abort its thread: either it returns a
      value, or it panics (an index past the end of a vector, `Vec::remove`
      out of range, `unwrap` of an error). */
  datatype Outcome<+T> = Returned(value: T) | Panic
}
