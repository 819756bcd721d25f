/** Shared vocabulary of the codec: bytes, optional values and the three ways a
    call can end (a value, a `DeserializationError`, or a panic of the program). */
module Wrappers {

  /** One octet, as Rust's `u8`. */
  type Byte = b: int | 0 <= b < 256

  datatype Option<+T> = None | Some(value: T)

  /** The causes of `MacaroonError::DeserializationError` this core raises. The
      message strings are abstracted to one tag per cause. */
  datatype Error =
    | Utf8Error       // bytes that must be text are not valid UTF-8
    | ParseIntError   // a length header is not a hexadecimal number
    | KeyValueError   // a packet body holds no space
    | UnknownKey      // a packet tag is none of the six V1 tags

  /** Where the Rust code would panic (a slice index out of range). */
  datatype PanicCause =
    | HeaderTooShort     // fewer than four header bytes remain
    | SizeOutOfRange     // declared size below four or beyond the buffer
    | SignatureTooShort  // a signature value of fewer than 32 bytes

  /** Result of a call: a value, a returned error, or a panic. Panics are kept
      apart from errors because the caller cannot observe them as a `Result`. */
  datatype Outcome<+T> = Ok(value: T) | Err(error: Error) | Panic(cause: PanicCause)
}
