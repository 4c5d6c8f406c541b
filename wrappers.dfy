/** Failure-compatible wrappers used throughout the model. */
module Wrappers {

  /** A value or nothing; stands for a C# nullable reference. */
  datatype Option<+T> = None | Some(value: T)

  /** A value or the exception that was thrown instead. */
  datatype Result<+R, +E> = Success(value: R) | Failure(error: E)

  /** Normal completion, or the exception that ended the call. */
  datatype Outcome<+E> = Pass | Fail(error: E)
}

/** The exceptions the modelled code throws, by their .NET type. */
module Faults {

  datatype Fault =
    | Expired        // Exception("This line has expired"), thrown by Line.EnsureCurrent
    | Argument       // ArgumentException (control characters, NewLine(n) with n < 1)
    | OutOfRange     // ArgumentOutOfRangeException (Substring, PadLeft)
    | DivideByZero   // DivideByZeroException (integer division by zero)
}
