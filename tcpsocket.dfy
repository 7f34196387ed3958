/** The plain TCP socket (tcpsocket.go): the same send and the same
    length-prefixed receive loop as the RCON socket, with other deadlines. */
module TcpSocket {
  import opened Errors
  import opened Wire
  import opened Net
  import RconSocket

  class TcpSocket {
    const conn: StreamConn

    constructor (conn: StreamConn)
      ensures this.conn == conn
    {
      this.conn := conn;
    }

    method Close()
      modifies conn
      ensures conn.closed
      ensures conn.stream == old(conn.stream) && conn.written == old(conn.written)
      ensures conn.writeFaults == old(conn.writeFaults)
    {
      conn.Close();
    }

    method Send(p: Bytes) returns (err: Option<Error>)
      modifies conn
      ensures old(conn.WriteDeadline()).Some? ==>
                err == old(conn.WriteDeadline()) && conn.writeFaults == old(conn.writeFaults)
      ensures old(conn.WriteDeadline()).None? ==>
                err == NextWriteFault(old(conn.writeFaults)) &&
                conn.writeFaults == (if old(conn.writeFaults) == [] then [] else old(conn.writeFaults)[1..])
      ensures conn.written == (if err.None? then old(conn.written) + p else old(conn.written))
      ensures conn.stream == old(conn.stream) && conn.closed == old(conn.closed)
    {
      var deadline := conn.WriteDeadline();
      if deadline.Some? {
        return deadline;
      }
      err := conn.Write(p);
    }

    /** The frame, as RconSocket.ReceiveFrame describes it. */
    method Receive() returns (frame: Result<Bytes>)
      modifies conn
      ensures var f := RconSocket.ReceiveFrame(old(conn.ReadDeadline()), old(conn.stream));
        frame == f.result && conn.stream == f.rest
      ensures conn.written == old(conn.written) && conn.writeFaults == old(conn.writeFaults)
      ensures conn.closed == old(conn.closed)
    {
      var deadline := conn.ReadDeadline();
      if deadline.Some? {
        return Err(deadline.value);
      }
      var buf := new Buffer();
      var prefix, err := ReadFullTee(conn, buf, 4);
      assert RconSocket.ReceiveFrame(None, old(conn.stream)) ==
        (if err.Some? then RconSocket.Framing(Err(err.value), conn.stream, false)
         else RconSocket.Reframe(conn.stream, Signed(prefix), prefix));
      if err.Some? {
        return Err(err.value);
      }
      assert buf.bytes == prefix;
      var total := Signed(prefix);
      ghost var goal := RconSocket.Reframe(conn.stream, total, buf.bytes);
      while total > 0
        invariant RconSocket.Reframe(conn.stream, total, buf.bytes).result == goal.result
        invariant RconSocket.Reframe(conn.stream, total, buf.bytes).rest == goal.rest
        invariant conn.written == old(conn.written) && conn.writeFaults == old(conn.writeFaults)
        invariant !conn.closed && conn.closed == old(conn.closed)
        decreases Weight(conn.stream)
      {
        RconSocket.ReframeStep(conn.stream, total, buf.bytes);
        var b, n, e := RconSocket.ReadBuffer(conn, total);
        if n > 0 {
          buf.Write(b);
          total := total - n;
        }
        if e == Some(Eof) {
          return Err(Eof);
        }
      }
      frame := Ok(buf.bytes);
    }
  }
}
