/** Failure-compatible wrappers: `Option` stands for a Java reference that may be
    null, `Result` for a computation that may end in an exception. */
module Wrappers {

  datatype Option<+T> = None | Some(value: T) {

    predicate IsFailure() {
      None?
    }

    function PropagateFailure<U>(): Option<U>
      requires None?
    {
      None
    }

    function Extract(): T
      requires Some?
    {
      value
    }

    function GetOr(default: T): T {
      match this
      case Some(v) => v
      case None => default
    }
  }

  /** `Failure` carries the message of the exception the Java code throws. */
  datatype Result<+R> = Success(value: R) | Failure(error: string) {

    predicate IsFailure() {
      Failure?
    }

    function PropagateFailure<U>(): Result<U>
      requires Failure?
    {
      Failure(error)
    }

    function Extract(): R
      requires Success?
    {
      value
    }
  }

  // The Java exceptions an operation may end in, by class name.
  const NULL_POINTER: string := "NullPointerException"
  const ILLEGAL_ARGUMENT: string := "IllegalArgumentException"
  const NUMBER_FORMAT: string := "NumberFormatException"
  const INDEX_OUT_OF_BOUNDS: string := "IndexOutOfBoundsException"
  const STRING_INDEX_OUT_OF_BOUNDS: string := "StringIndexOutOfBoundsException"
}
