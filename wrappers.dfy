/** Option and Result, and the .NET exceptions the modelled code can raise. */
module Wrappers {

  datatype Option<+T> = None | Some(value: T)

  /** The exception a .NET call throws, reduced to its kind. */
  datatype Exception =
    | NullReference     // a member called on a null reference (GetType, Equals, foreach over null)
    | IndexOutOfRange   // an array index past the end (x[1] of a split without '=')
    | Format            // char.Parse on text that is not exactly one character

  /** The outcome of a call that either returns a value or throws. */
  datatype Result<+T> = Success(value: T) | Failure(error: Exception)
}
