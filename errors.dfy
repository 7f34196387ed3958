/** Error values shared by every part of the client, and the Result and
    Option wrappers that carry them. A Go function that returns `error`, or
    that panics, returns a `Result` here. */
module Errors {

  datatype Error =
    | Eof                     // io.EOF: a read found no byte at all
    | UnexpectedEof           // io.ErrUnexpectedEOF: a read found some, but too few, bytes
    | BadData                 // errBadData (wire.go)
    | BadLength               // runtime panic of make([]byte, n) with n < 0
    | OutOfRange              // runtime panic of an index or slice expression out of range
    | InvalidHeader           // the header error of the older player list decoder
    | SplitPacket             // "cannot handle split packets"
    | ShortWrite              // "could not send full (udp) request"
    | NoAddress               // "server needs a address"
    | RconAuthFailed          // ErrRCONAuthFailed
    | RconNotInitialized      // ErrRCONNotInitialized
    | InvalidResponseType     // ErrInvalidResponseType
    | InvalidResponseId       // ErrInvalidResponseID
    | InvalidResponseTrailer  // ErrInvalidResponseTrailer
    | Timeout                 // an expired read or write deadline
    | Closed                  // net.ErrClosed: use of a closed network connection
    | NetFault(code: nat)     // any other error reported by the network layer
    | Panic(cause: Error)     // a panic that is not recovered: it escapes the function

  datatype Option<+T> = None | Some(value: T)

  datatype Result<+T> = Ok(value: T) | Err(error: Error) {
    predicate IsFailure() {
      Err?
    }

    function PropagateFailure<U>(): Result<U>
      requires Err?
    {
      Err(error)
    }

    function Extract(): T
      requires Ok?
    {
      value
    }
  }
}
