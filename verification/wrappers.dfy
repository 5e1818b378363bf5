/** `Option` stands for a Python value that may be `None`; `Result`, usable
    with `:-`, for a call that either returns a value or raises. */
module Wrappers {

  /** A value that may be absent, as a selector's `.get()` returns `None`
      when nothing matched. */
  datatype Option<+T> = None | Some(value: T)

  /** The outcome of a computation that either returns a value or raises. */
  datatype Result<+R, +E> = Success(value: R) | Failure(error: E) {

    predicate IsFailure() {
      Failure?
    }

    function PropagateFailure<U>(): Result<U, E>
      requires Failure?
    {
      Failure(error)
    }

    function Extract(): R
      requires Success?
    {
      value
    }
  }
}
