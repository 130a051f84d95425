/**
 * Return conventions shared by the framing codec, the decoder and the session
 * context. In the library every error is a negative integer; here each kind is a
 * constructor, and `Os` stands for a negative errno value handed up unchanged by
 * the transport.
 */
module Results {

  datatype Error =
    | InvalidParam
    | NoMem
    | Busy
    | BadFd
    | WouldBlock
    | Overflow
    | TooBig
    | BadMessage
    | IO
    | Other
    | Os(errno: nat)

  /** `0` or a negative error code, for calls that return nothing else. */
  datatype Status = Ok | Err(error: Error)

  /** A value or a negative error code (the library's `ssize_t` returns). */
  datatype Result<T> = Success(value: T) | Failure(error: Error)

  /** A value that may be absent, such as the completed frame of a decoder step. */
  datatype Option<T> = None | Some(value: T)
}
