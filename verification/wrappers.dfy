/** Failure-compatible wrappers shared by every module of the model: `Option` for
    JavaScript's `undefined`/`null` and Python's `None`, `Result` for a raised
    exception or thrown error. */
module Wrappers {

  datatype Option<+T> = None | Some(value: T) {

    /** The wrapped value, or `default` when there is none. */
    function GetOr(default: T): T {
      match this
      case Some(v) => v
      case None => default
    }
  }

  /** The kinds of exception the modelled code raises or throws. */
  datatype Error =
    | ValueError(message: string)
    | IndexError
    | TypeError(message: string)
    | Thrown(message: string)

  datatype Result<+R> = Success(value: R) | Failure(error: Error) {

    predicate IsFailure() {
      Failure?
    }

    function PropagateFailure<U>(): Result<U>
      requires Failure?
    {
      Failure(error)
    }

    function Extract(): R
      requires Success?
    {
      value
    }
  }
}
