/**
 * Failure-compatible wrappers shared by every layer of the model: `Option`
 * stands for a value that may be missing (a C# null, a failed `TryParse`,
 * a lookup that knows no value), `Result` for an operation that either
 * succeeds or raises one of the source's exceptions.
 */
module Wrappers {

  datatype Option<+T> = None | Some(value: T)

  datatype Result<+T, +E> = Success(value: T) | Failure(error: E) {

    predicate IsFailure() {
      Failure?
    }

    function PropagateFailure<U>(): Result<U, E>
      requires Failure?
    {
      Failure(error)
    }

    function Extract(): T
      requires Success?
    {
      value
    }
  }
}
