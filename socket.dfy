/** The older UDP socket (socket.go): the same send check and the same
    receive post-processing as the UDP socket, but the result of setting
    the read deadline is ignored. */
module Socket {
  import opened Errors
  import opened Wire
  import opened Net
  import UdpSocket

  /** receivePacket: ReadFromUDP into a 1500-byte array, whatever
      SetReadDeadline returned; on a closed connection the read itself
      fails with net.ErrClosed. */
  function ReceivedPacket(closed: bool, inbox: seq<Arrival>): (r: Result<Bytes>)
    ensures r.Ok? ==> |r.value| <= UdpSocket.MaxPacket
    ensures closed ==> r == Err(Closed)
  {
    if closed then Err(Closed)
    else
      var d := ReadDatagram(inbox, UdpSocket.MaxPacket);
      if d.err.Some? then Err(d.err.value) else Ok(d.bytes)
  }

  /** The datagrams left to read after receivePacket. */
  function InboxAfter(closed: bool, inbox: seq<Arrival>): seq<Arrival>
  {
    if closed then inbox else ReadDatagram(inbox, UdpSocket.MaxPacket).rest
  }

  /** receive: receivePacket, then the split check and the header strip. */
  function Received(closed: bool, inbox: seq<Arrival>): (r: Result<Bytes>)
    ensures closed ==> r == Err(Closed)
    ensures ReceivedPacket(closed, inbox).Err? ==> r == Err(ReceivedPacket(closed, inbox).error)
    ensures r.Ok? ==> |r.value| <= UdpSocket.MaxPacket - 4
    ensures var p := ReceivedPacket(closed, inbox); r.Ok? ==> p.Ok? && 4 <= |p.value| && p.value[4..] == r.value
  {
    var p :- ReceivedPacket(closed, inbox);
    UdpSocket.Strip(p)
  }

  class Socket {
    /** The UDP connection, with the server's address bound in. */
    const conn: PacketConn

    constructor (conn: PacketConn)
      ensures this.conn == conn
    {
      this.conn := conn;
    }

    method Close()
      modifies conn
      ensures conn.closed
      ensures conn.inbox == old(conn.inbox) && conn.sendScript == old(conn.sendScript)
      ensures conn.outbox == old(conn.outbox)
    {
      conn.Close();
    }

    /** WriteToUDP(payload, raddr): its error, or a short write. */
    method Send(payload: Bytes) returns (err: Option<Error>)
      modifies conn
      ensures old(conn.closed) ==> err == Some(Closed) && conn.sendScript == old(conn.sendScript)
      ensures !old(conn.closed) ==> err == UdpSocket.SendResult(old(conn.sendScript), payload)
      ensures !old(conn.closed) ==> conn.sendScript == (if old(conn.sendScript) == [] then [] else old(conn.sendScript)[1..])
      ensures var w := WriteDatagram(old(conn.sendScript), payload);
        conn.outbox == (if !old(conn.closed) && w.err.None? then old(conn.outbox) + [payload[..w.n]] else old(conn.outbox))
      ensures conn.inbox == old(conn.inbox) && conn.closed == old(conn.closed)
    {
      var n, e := conn.Write(payload);
      if e.Some? {
        return e;
      }
      if n != |payload| {
        return Some(ShortWrite);
      }
      return None;
    }

    method ReceivePacket() returns (r: Result<Bytes>)
      modifies conn
      ensures r == ReceivedPacket(old(conn.closed), old(conn.inbox))
      ensures conn.inbox == InboxAfter(old(conn.closed), old(conn.inbox))
      ensures conn.sendScript == old(conn.sendScript) && conn.outbox == old(conn.outbox)
      ensures conn.closed == old(conn.closed)
    {
      var buf := new byte[UdpSocket.MaxPacket];
      var n, err := conn.Read(buf);
      if err.Some? {
        return Err(err.value);
      }
      r := Ok(buf[..n]);
    }

    method Receive() returns (r: Result<Bytes>)
      modifies conn
      ensures r == Received(old(conn.closed), old(conn.inbox))
      ensures conn.inbox == InboxAfter(old(conn.closed), old(conn.inbox))
      ensures conn.sendScript == old(conn.sendScript) && conn.outbox == old(conn.outbox)
      ensures conn.closed == old(conn.closed)
    {
      var buf := ReceivePacket();
      if buf.Err? {
        return Err(buf.error);
      }
      if |buf.value| == 0 {
        return Err(Panic(OutOfRange));
      }
      if buf.value[0] == UdpSocket.SplitMarker {
        return Err(SplitPacket);
      }
      if |buf.value| < 4 {
        return Err(Panic(OutOfRange));
      }
      r := Ok(buf.value[4..]);
    }
  }

  /** Both revisions of receive agree whenever setting the deadline works;
      when it fails, the older one reads the datagram regardless. On a
      closed connection both fail with net.ErrClosed. */
  lemma ReceivedAgreesWithUdpSocket(deadline: Option<Error>, inbox: seq<Arrival>)
    ensures deadline.None? ==> Received(false, inbox) == UdpSocket.Received(deadline, inbox)
    ensures deadline.Some? ==> UdpSocket.Received(deadline, inbox) == Err(deadline.value)
    ensures ReceivedPacket(false, inbox) == UdpSocket.ReceivedPacket(None, inbox)
    ensures Received(true, inbox) == UdpSocket.Received(Some(Closed), inbox) == Err(Closed)
  {
  }

  /** A split packet is turned away, a short datagram panics, and anything
      else comes back without its 4-byte header. */
  lemma ReceivedOfPacket(p: Bytes, t: seq<Arrival>)
    requires |p| <= UdpSocket.MaxPacket
    ensures var r := Received(false, [Packet(p)] + t);
      (|p| > 0 && p[0] == UdpSocket.SplitMarker ==> r == Err(SplitPacket)) &&
      (|p| >= 4 && p[0] != UdpSocket.SplitMarker ==> r == Ok(p[4..])) &&
      (r.Ok? ==> |r.value| == |p| - 4)
  {
    assert ([Packet(p)] + t)[0] == Packet(p);
    assert p[..Min(|p|, UdpSocket.MaxPacket)] == p;
  }
}
