/** Failure-carrying values shared by every module of the model. */
module Wrappers {

  /** A C# reference that may be null: None stands for null. */
  datatype Option<+T> = None | Some(value: T)

  /** The value of a computation, or the error that ended it. */
  datatype Result<+R, +E> = Success(value: R) | Failure(error: E)
}

/** The .NET exceptions that the modelled code can let escape. */
module Exceptions {

  datatype Exception =
    | FormatException              // byte.Parse / uint.Parse on text that is not a number
    | OverflowException            // byte.Parse / uint.Parse on a number out of the type's range
    | IndexOutOfRangeException     // indexing past the end of an array returned by Split
    | ArgumentOutOfRangeException  // a List created with a negative capacity
    | DivideByZeroException        // integer division by zero
    | OutOfMemoryException         // a List grown past the largest array .NET allocates
    | IOException                  // File.WriteAllLinesAsync failed, e.g. DirectoryNotFoundException
    | NullReferenceException       // a member called through a null reference
}
