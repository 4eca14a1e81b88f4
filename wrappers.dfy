/** Failure-compatible wrappers used in place of Java's null references and
    checked exceptions. */
module Wrappers {

  /** An optional value; as a Java reference, `None` is `null`. */
  datatype Option<+T> = None | Some(value: T) {
    predicate IsFailure() { None? }

    function PropagateFailure<U>(): Option<U>
      requires None?
    {
      None
    }

    function Extract(): T
      requires Some?
    {
      value
    }
  }

  /** The value an operation returns, or the exception it throws. */
  datatype Result<+R, +E> = Success(value: R) | Failure(error: E)

  /** Normal completion of a `void` operation, or the exception it throws. */
  datatype Outcome<+E> = Pass | Fail(error: E)
}
