/** Values shared by the file handle and the buffered reader: bytes, the
    error kinds the layer reports, and its result type (Rust's io::Result). */
module IoTypes {

  /** An unsigned 8-bit value (Rust's u8). */
  newtype byte = x: int | 0 <= x < 256

  /** The byte value of '\n'. */
  const NEWLINE: byte := 10

  /** The error kinds the core produces. The OS's own diagnostic code
      (io::Error::last_os_error) is kept opaque as LastOsError. */
  datatype IoError = InvalidInput | InvalidData | LastOsError

  datatype Result<T> = Ok(value: T) | Err(error: IoError)

  datatype Option<T> = None | Some(value: T)
}
