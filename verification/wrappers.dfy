/** Failure-compatible helper datatypes shared by every module of the model. */
module Wrappers {

  /** An optional value: `None` plays the role of JavaScript's `undefined`. */
  datatype Option<+T> = None | Some(value: T) {

    predicate IsFailure() {
      None?
    }

    function PropagateFailure<U>(): Option<U>
      requires None?
    {
      None
    }

    function Extract(): T
      requires Some?
    {
      value
    }

    function GetOr(default: T): T {
      match this
      case Some(v) => v
      case None => default
    }
  }

  /** The outcome of an operation that may throw: `Failure` carries the error raised. */
  datatype Result<+R, +E> = Success(value: R) | Failure(error: E) {

    predicate IsFailure() {
      Failure?
    }

    function PropagateFailure<U>(): Result<U, E>
      requires Failure?
    {
      Failure(error)
    }

    function Extract(): R
      requires Success?
    {
      value
    }
  }

  /** JavaScript truthiness of an optional string: `undefined` and `''` are falsy. */
  predicate TruthyString(s: Option<string>) {
    s.Some? && s.value != ""
  }
}
