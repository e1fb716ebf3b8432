/** Failure-compatible wrappers used to model Python exceptions as values. */
module Results {

  datatype Option<+T> = None | Some(value: T)

  /** The outcome of an operation that may raise: a value, or the reason it raised. */
  datatype Result<+T, +E> = Success(value: T) | Failure(error: E) {

    predicate IsFailure() {
      Failure?
    }

    function PropagateFailure<U>(): Result<U, E>
      requires Failure?
    {
      Failure(error)
    }

    function Extract(): T
      requires Success?
    {
      value
    }
  }
}
