/** Outcomes of the network's operations: the Java exceptions they raise,
    modelled as values. */
module Outcomes {

  /** The exceptions raised by the network's public operations. */
  datatype Error =
    | NullPointer      // NullPointerException
    | IllegalArgument  // IllegalArgumentException: blank strings, negative ids
    | LimitExceeded    // LimitExceededException: text longer than 140 UTF-16 units
    | NoSuchElement    // NoSuchElementException: unknown post id
    | IllegalState     // IllegalStateException: self-like, self-report, repeated report

  /** Either the value an operation returns or the exception it raises. */
  datatype Result<T> = Ok(value: T) | Err(error: Error)

  /** A value that may be absent (a Java `null` result). */
  datatype Option<T> = None | Some(value: T)
}
