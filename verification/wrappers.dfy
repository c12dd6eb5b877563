/** Failure-compatible wrappers used throughout the interpreter model. */
module Wrappers {

  /** An optional value: the result of a lookup or of a parse that may not succeed. */
  datatype Option<+T> = None | Some(value: T)

  /** Either a value or an error; usable with `:-`, so that an error aborts the rest
      of an operation the way a thrown exception does. */
  datatype Result<+T, +E> = Success(value: T) | Failure(error: E) {

    predicate IsFailure() {
      Failure?
    }

    function PropagateFailure<U>(): Result<U, E>
      requires Failure?
    {
      Failure(error)
    }

    function Extract(): T
      requires Success?
    {
      value
    }
  }
}
