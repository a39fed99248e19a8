/** The exception kinds the library throws, as values, and the results that carry them. */
module Failures {

  /** Error kinds, named after the exceptions the Kotlin code throws. */
  datatype Error =
    | IllegalArgument       // a `require` precondition failed
    | IllegalState          // a `check` or `error` failed
    | NoSuchElement         // an iterator was asked for an element it does not have
    | IndexOutOfBounds      // an array, list or string was indexed outside its bounds
    | UnsupportedOperation  // `reduce` was applied to an empty sequence

  /** The outcome of an operation that returns a value or throws. */
  datatype Result<+T> = Ok(value: T) | Err(error: Error)

  /** The outcome of an operation that returns nothing or throws. */
  datatype Outcome = Pass | Fail(error: Error)
}
