/** Outcomes of the cursor operations: the exceptions skein.js throws become values. */
module Wrappers {

  datatype Option<+T> = None | Some(value: T)

  /** Why an operation was refused. Nothing has been changed unless the operation's contract says otherwise. */
  datatype Error =
    | BufferOverflow  // the "Buffer overflow" string skein.js throws when too few bytes remain
    | OutOfRange      // the RangeError Node's Buffer raises for a bad width or an unrepresentable value
    | StackExhausted  // the RangeError the engine raises when a call recurses without end

  /** Result of an operation that writes or moves the cursor. */
  datatype Outcome = Pass | Fail(error: Error)

  /** Result of an operation that reads a value. */
  datatype Result<+T> = Ok(value: T) | Err(error: Error)
}
