/** Failure-compatible wrappers used throughout the model: `Option` for the
    values the source reads as `null`/`undefined`, `Result` for the places where
    the source throws. */
module Wrappers {

  datatype Option<+T> = None | Some(value: T) {
    function GetOr(default: T): T {
      match this
      case Some(v) => v
      case None => default
    }
  }

  /** The two exceptions the transform pipeline can raise. */
  datatype Error =
    | InvalidKeyLength      // check-digit body is not 43 characters long
    | UndefinedDatePart     // `ano.substring(2)` on a date string with fewer than three '/' parts

  datatype Result<+R> = Success(value: R) | Failure(error: Error) {
    predicate IsFailure() {
      Failure?
    }

    function PropagateFailure<U>(): Result<U>
      requires Failure?
    {
      Failure(error)
    }

    function Extract(): R
      requires Success?
    {
      value
    }
  }
}
