/**
 * Shared vocabulary of the client: bytes, the unsigned integer types of the
 * source, the optional and fallible result types, and the client's error type.
 */
module Common {

  /** An octet, the element type of a UTF-8 byte sequence. */
  newtype byte = x: int | 0 <= x < 0x100

  /** A TCP port, Rust's `u16`. */
  type Port = p: int | 0 <= p < 0x1_0000

  /** `std::time::Duration`, as a whole number of milliseconds. */
  type Duration = nat

  datatype Option<+T> = None | Some(value: T)

  datatype Result<+T, +E> = Ok(value: T) | Err(error: E)

  /** Every error kind the core raises. The source's enum lists the first
      four; `NoAvailableTcpStream` and `WriteError` are the two further kinds
      the connection code raises. */
  datatype ClientErrorType =
    | IncorrectSocketAddr
    | ConnectionFailure
    | DisconnectionFailed
    | UnsupportedScheme
    | NoAvailableTcpStream
    | WriteError

  datatype ClientError = ClientError(errorType: ClientErrorType, message: string)
}
