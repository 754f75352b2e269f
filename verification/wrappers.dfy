/**
 Failure-compatible wrappers used throughout the model: `Option` stands for
 Python's `Optional[...]` (a value or `None`), `Result` for a call that either
 returns or raises.
 */
module Wrappers {

  /** A value or Python's `None`. */
  datatype Option<+T> = None | Some(value: T) {

    /** The wrapped value, or `default` when there is none. */
    function GetOr(default: T): T {
      match this
      case Some(v) => v
      case None => default
    }
  }

  /** The outcome of a call that either returns `value` or raises `error`. */
  datatype Result<+R, +E> = Success(value: R) | Failure(error: E)
}
