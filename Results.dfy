/** Failure-carrying values used in place of Java's null results and exceptions. */
module Results {

  /** A value or its absence: Java's `Map.get` returning null for a missing key. */
  datatype Option<+T> = None | Some(value: T)

  /** The exceptions the modelled Java code can throw. */
  datatype Error =
    | StringIndexOutOfBounds  // `charAt` / `substring` past the end of a string
    | IllegalState            // the combo builder's "Last group is empty!"

  /** A computed value, or the exception that ended the computation. */
  datatype Result<+T> = Success(value: T) | Failure(error: Error)

  /** A state change that either happened or was refused with an exception. */
  datatype Outcome = Pass | Fail(error: Error)
}
