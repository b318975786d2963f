/**
 * The Java exceptions that the modelled operations throw, as values.
 * An operation that can throw returns a Result instead.
 */
module Outcomes {

  /** The exception kinds thrown by the modelled classes. */
  datatype Exception =
    | NoSuchElement     // java.util.NoSuchElementException (underflow)
    | IllegalArgument   // java.lang.IllegalArgumentException

  /** Either the value an operation returns or the exception it throws. */
  datatype Result<+T> = Ok(value: T) | Err(error: Exception)
}
