/** Exceptions the modelled Java code can raise, and the result types that carry them. */
module Outcomes {

  /** The Java exception classes thrown by the buffer and the emulation. */
  datatype Error =
    | IndexOutOfBounds    // IndexOutOfBoundsException and ArrayIndexOutOfBoundsException
    | IllegalArgument     // IllegalArgumentException
    | NegativeArraySize   // NegativeArraySizeException
    | NullPointer         // NullPointerException

  /** Either a value or the exception that was thrown before any state changed. */
  datatype Result<+T> = Ok(value: T) | Err(error: Error)

  datatype Option<+T> = None | Some(value: T)

  function Min(a: int, b: int): int { if a < b then a else b }
  function Max(a: int, b: int): int { if a < b then b else a }
}
