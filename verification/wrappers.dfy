/** Failure-compatible wrappers shared by the models of the three source files. */
module Wrappers {

  datatype Option<+T> = None | Some(value: T)

  /** The value of a fallible call: Rust's `Result`, or a Python call that may raise. */
  datatype Result<+R, +E> = Success(value: R) | Failure(error: E) {

    predicate IsFailure() {
      Failure?
    }

    function PropagateFailure<U>(): Result<U, E>
      requires Failure?
    {
      Failure(error)
    }

    function Extract(): R
      requires Success?
    {
      value
    }

    /** Rust's `map_err`. */
    function MapError<NewE>(f: E -> NewE): Result<R, NewE>
    {
      match this
      case Success(v) => Success(v)
      case Failure(e) => Failure(f(e))
    }
  }
}
