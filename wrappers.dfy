/** Failure-compatible wrappers shared by the whole model: Java's `null` becomes
    `None`, and a thrown exception becomes a `Failure` carrying its kind. */
module Wrappers {

  datatype Option<+T> = None | Some(value: T) {
    predicate IsFailure() { None? }

    function PropagateFailure<U>(): Option<U>
      requires None?
    {
      None
    }

    function Extract(): T
      requires Some?
    {
      value
    }
  }

  datatype Result<+R, +E> = Success(value: R) | Failure(error: E) {
    predicate IsFailure() { Failure? }

    function PropagateFailure<U>(): Result<U, E>
      requires Failure?
    {
      Failure(error)
    }

    function Extract(): R
      requires Success?
    {
      value
    }
  }

  /** The Java exception classes the core throws or lets escape. */
  datatype Exception =
    | IllegalArgument        // java.lang.IllegalArgumentException
    | NumberFormat           // java.lang.NumberFormatException (a subclass of the above)
    | Runtime                // java.lang.RuntimeException, usually wrapping a library failure
    | UnsupportedOperation   // Gson's getAsX on a JSON null or an object
    | IllegalState           // Gson's getAsX on an array that does not hold exactly one element
    | NullPointer            // java.lang.NullPointerException

  /** A computation that either returns a value or throws. */
  type Throws<T> = Result<T, Exception>
}
