/** Option and Result, the two sum types the model uses for absent values and
    for failures. Result is failure-compatible, so `:-` propagates errors. */
module Wrappers {

  /** A present-or-absent value; stands for Python's `Optional[T]`. */
  datatype Option<+T> = None | Some(value: T)

  /** Either a value or an error; stands for a Python call that may raise. */
  datatype Result<+T, +E> = Success(value: T) | Failure(error: E) {

    predicate IsFailure() {
      Failure?
    }

    function PropagateFailure<U>(): Result<U, E>
      requires Failure?
    {
      Failure(error)
    }

    function Extract(): T
      requires Success?
    {
      value
    }
  }
}
