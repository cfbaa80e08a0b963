/** Option and Result: a C# reference that may be null, and an operation
    that may throw instead of returning. */
module Wrappers {

  /** An Option can be used with `:-`: a None ends the enclosing method. */
  datatype Option<+T> = None | Some(value: T) {
    predicate IsFailure() {
      None?
    }

    function PropagateFailure<U>(): Option<U>
      requires None?
    {
      None
    }

    function Extract(): T
      requires Some?
    {
      value
    }
  }

  datatype Result<+R, +E> = Success(value: R) | Failure(error: E)
}
