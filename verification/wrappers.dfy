/** Failure-carrying result types shared by every module of the model.
    `Option` stands for a nullable pointer or Rust `Option`, `Result` for an
    operation that either returns a value or reports an error (a Rust `Err`,
    a C `false`/`NULL` return, or a raised Ruby exception). */
module Wrappers {

  datatype Option<+T> = None | Some(value: T) {
    function GetOr(default: T): T {
      match this
      case Some(v) => v
      case None => default
    }
  }

  datatype Result<+R, +E> = Success(value: R) | Failure(error: E) {
    predicate IsFailure() {
      Failure?
    }

    function PropagateFailure<U>(): Result<U, E>
      requires Failure?
    {
      Failure(error)
    }

    function Extract(): R
      requires Success?
    {
      value
    }
  }
}
