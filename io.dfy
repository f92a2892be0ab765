/** Outcomes of the socket operations that both programs perform; the sockets
 *  themselves are outside the model, only what a call returned is kept. */
module Io {

  datatype Option<+T> = None | Some(value: T)

  /** What one `TcpStream::read` into a 512-byte buffer returned. */
  datatype ReadOutcome =
    | Bytes(data: string)       // Ok(n): `data` are the n characters read; n == 0 means the peer closed
    | WouldBlock                // Err with kind WouldBlock (non-blocking socket, nothing to read)
    | Failed(debug: string)     // any other Err; `debug` is its `{:?}` rendering
}
