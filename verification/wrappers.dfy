/** Failure-carrying datatypes used across the model. */
module Wrappers {

  /** A value that may be absent. */
  datatype Option<+T> = None | Some(value: T)

  /** Either a computed value or the error that stopped the computation. */
  datatype Result<+T, +E> = Success(value: T) | Failure(error: E)
  {
    /** True for a failure, which `:-` passes on unchanged. */
    predicate IsFailure() {
      Failure?
    }

    /** The same error, as a result of another value type. */
    function PropagateFailure<U>(): Result<U, E>
      requires Failure?
    {
      Failure(error)
    }

    /** The computed value of a success. */
    function Extract(): T
      requires Success?
    {
      value
    }
  }
}
