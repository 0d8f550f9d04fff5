/** A .NET null, and the outcome of a call that may throw. */
module Wrappers {

  /** `None` stands for a null reference. */
  datatype Option<+T> = None | Some(value: T)

  /** The kind of .NET exception a call raises. */
  datatype Failure =
    | IndexOutOfRange      // System.IndexOutOfRangeException
    | ArgumentOutOfRange   // System.ArgumentOutOfRangeException
    | ArgumentNull         // System.ArgumentNullException
    | NullReference        // System.NullReferenceException
    | Argument             // System.ArgumentException
    | Format               // System.FormatException
    | NotSupported         // System.NotSupportedException
    | DivideByZero         // System.DivideByZeroException
    | General              // a bare System.Exception

  /** Either the value a call returns or the exception it throws. */
  datatype Result<+T> = Ok(value: T) | Error(failure: Failure)
}
