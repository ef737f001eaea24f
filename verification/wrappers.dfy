/** Failure-carrying wrappers shared by the board and solver modules. */
module Wrappers {

  /** A value that may be absent; stands in for a Java reference that may be null. */
  datatype Option<+T> = None | Some(value: T)

  /** Either a computed value or the exception the Java code would have thrown. */
  datatype Result<+R, +E> = Success(value: R) | Failure(error: E)

  /** The exceptions the puzzle code raises, plus the model's own fuel exhaustion. */
  datatype Error =
    | InvalidArgument     // IllegalArgumentException
    | IndexOutOfBounds    // ArrayIndexOutOfBoundsException
    | NoSuchElement       // NoSuchElementException from an empty priority queue
    | OutOfFuel           // the bounded driver gave up before either lane reached a goal
}
