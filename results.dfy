/**
 * Values that stand in for Java's null and for the exceptions the core throws.
 */
module Results {

  /** A Java reference that may be null. */
  datatype Option<+T> = None | Some(value: T)

  /** The kind of exception a Java call ends with. */
  datatype Error =
    | NullPointer       // Validate.notNull and friends
    | IllegalArgument   // Validate.isTrue, Validate.notEmpty, IllegalArgumentException
    | IllegalState      // IllegalStateException
    | IndexOutOfBounds  // String.charAt / String.substring out of range
    | Runtime           // a bare RuntimeException

  /** Either the value a Java call returns, or the exception it throws. */
  datatype Result<+T> = Success(value: T) | Failure(error: Error)

  /** The outcome of a Java call that returns nothing (or returns `this`). */
  datatype Outcome = Pass | Fail(error: Error)
}
