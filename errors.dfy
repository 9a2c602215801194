/** The exceptions the exercises throw, as values, and the two wrappers that carry them. */
module Errors {

  /** The .NET exception kinds the modelled code raises. */
  datatype Error =
    | ArgumentNull(paramName: string)      // an ArgumentNullException, carrying the parameter's name
    | InvalidOperation(message: string)    // an InvalidOperationException, carrying its message

  /** The outcome of a call that returns a value or throws. */
  datatype Result<+T> = Success(value: T) | Failure(error: Error)

  /** The outcome of a `void` call that returns normally or throws. */
  datatype Outcome = Pass | Fail(error: Error)
}
