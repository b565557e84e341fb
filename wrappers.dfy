/** Outcome types shared by the model: an optional value and a value-or-exception. */
module Wrappers {

  /** `None` stands for JavaScript's `undefined` or for a call that threw. */
  datatype Option<+T> = None | Some(value: T) {

    /** The value, or `default` when there is none. */
    function GetOr(default: T): T {
      match this
      case Some(v) => v
      case None => default
    }
  }

  /** A returned value, or the exception a JavaScript call would raise. */
  datatype Result<+R, +E> = Success(value: R) | Failure(error: E)
}
