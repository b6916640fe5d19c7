/**
 * Vocabulary shared by the three source files: Go's `byte`, optional values,
 * error-or-value results and the two byte orders of UTF-16 and UTF-32.
 */
module Base {

  /** Go's `byte` (uint8). */
  type Byte = b: int | 0 <= b < 0x100

  /** A value that may be missing (a nil pointer, a registry miss). */
  datatype Option<+T> = None | Some(value: T)

  /** A Go `(value, error)` pair in which exactly one side is meaningful. */
  datatype Outcome<+T, +E> = Ok(value: T) | Err(error: E)

  /** Byte order of a multi-byte code unit. */
  datatype ByteOrder = BigEndian | LittleEndian
}
