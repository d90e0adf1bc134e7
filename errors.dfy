/**
 * The exceptions the modelled code raises, and the wrappers that carry them
 * back to the caller instead of unwinding the stack.
 */
module Exceptions {

  /** The .NET exception kinds that the modelled members throw themselves. */
  datatype Error =
    | ArgumentError          // ArgumentException
    | ArgumentOutOfRange     // ArgumentOutOfRangeException
    | BufferOverflow         // InternalBufferOverflowException
    | InvalidOperation       // InvalidOperationException
    | MalformedPath          // the parse error of a malformed path text
    | NotSupported           // NotSupportedException
    | NotFound               // FileNotFoundException, DirectoryNotFoundException

  /** A value, or the exception raised instead of producing it. */
  datatype Result<+R> = Success(value: R) | Failure(error: Error)

  /** A call that returns nothing, or the exception it raised. */
  datatype Outcome = Pass | Fail(error: Error)

  /** A reference that may be null. */
  datatype Option<+T> = None | Some(value: T)
}
