/** The UDP socket of the query protocol (udpsocket.go): send writes one
    datagram, receivePacket reads one into a 1500-byte array, and receive
    turns away split packets and strips the 4-byte packet header. */
module UdpSocket {
  import opened Errors
  import opened Wire
  import opened Net

  /** The size of the receive array. */
  const MaxPacket: nat := 1500

  /** The first byte of a split packet's header, FE FF FF FF. */
  const SplitMarker: byte := 0xFE

  /** What send returns for a write that reported n bytes and err: the
      error, or a complaint when fewer than all bytes left. */
  function SendResult(script: seq<Sent>, p: Bytes): (err: Option<Error>)
    ensures err.None? <==> WriteDatagram(script, p) == WriteResult(|p|, None)
    ensures WriteDatagram(script, p).err.Some? ==> err == WriteDatagram(script, p).err
  {
    var w := WriteDatagram(script, p);
    if w.err.Some? then w.err
    else if w.n != |p| then Some(ShortWrite)
    else None
  }

  /** receivePacket: the deadline error, or the read error, or the first
      1500 bytes of the next datagram. */
  function ReceivedPacket(deadline: Option<Error>, inbox: seq<Arrival>): (r: Result<Bytes>)
    ensures r.Ok? ==> |r.value| <= MaxPacket
    ensures deadline.Some? ==> r == Err(deadline.value)
    ensures deadline.None? && inbox == [] ==> r == Err(Timeout)
    ensures deadline.None? && inbox != [] ==>
      match inbox[0]
      case ReadFault(e) => r == Err(e)
      case Packet(p) => r == Ok(p[..Min(|p|, MaxPacket)])
  {
    if deadline.Some? then Err(deadline.value)
    else
      var d := ReadDatagram(inbox, MaxPacket);
      if d.err.Some? then Err(d.err.value) else Ok(d.bytes)
  }

  /** The datagrams left to read after receivePacket. */
  function InboxAfter(deadline: Option<Error>, inbox: seq<Arrival>): seq<Arrival>
  {
    if deadline.Some? then inbox else ReadDatagram(inbox, MaxPacket).rest
  }

  /** receive's check of a datagram: a first byte FE marks a split packet;
      otherwise the header's four bytes are dropped. An empty datagram
      (buf[0]) and one of 1 to 3 bytes (buf[4:]) panic without a recover. */
  function Strip(p: Bytes): (r: Result<Bytes>)
    ensures r.Ok? <==> |p| >= 4 && p[0] != SplitMarker
    ensures r.Ok? ==> p == p[..4] + r.value
    ensures |p| > 0 && p[0] == SplitMarker ==> r == Err(SplitPacket)
    ensures |p| < 4 && (|p| == 0 || p[0] != SplitMarker) ==> r == Err(Panic(OutOfRange))
  {
    if |p| == 0 then Err(Panic(OutOfRange))
    else if p[0] == SplitMarker then Err(SplitPacket)
    else if |p| < 4 then Err(Panic(OutOfRange))
    else Ok(p[4..])
  }

  /** receive: receivePacket, then Strip. */
  function Received(deadline: Option<Error>, inbox: seq<Arrival>): (r: Result<Bytes>)
    ensures deadline.Some? ==> r == Err(deadline.value)
    ensures ReceivedPacket(deadline, inbox).Err? ==> r == Err(ReceivedPacket(deadline, inbox).error)
    ensures r.Ok? ==> |r.value| <= MaxPacket - 4
    ensures var p := ReceivedPacket(deadline, inbox); r.Ok? ==> p.Ok? && 4 <= |p.value| && p.value[4..] == r.value
  {
    var p :- ReceivedPacket(deadline, inbox);
    Strip(p)
  }

  class UdpSocket {
    const conn: PacketConn

    constructor (conn: PacketConn)
      ensures this.conn == conn
    {
      this.conn := conn;
    }

    method Close()
      modifies conn
      ensures conn.closed
      ensures conn.inbox == old(conn.inbox) && conn.sendScript == old(conn.sendScript)
      ensures conn.outbox == old(conn.outbox)
    {
      conn.Close();
    }

    method Send(payload: Bytes) returns (err: Option<Error>)
      modifies conn
      ensures old(conn.closed) ==> err == Some(Closed) && conn.sendScript == old(conn.sendScript)
      ensures !old(conn.closed) ==> err == SendResult(old(conn.sendScript), payload)
      ensures !old(conn.closed) ==> conn.sendScript == (if old(conn.sendScript) == [] then [] else old(conn.sendScript)[1..])
      ensures var w := WriteDatagram(old(conn.sendScript), payload);
        conn.outbox == (if !old(conn.closed) && w.err.None? then old(conn.outbox) + [payload[..w.n]] else old(conn.outbox))
      ensures conn.inbox == old(conn.inbox) && conn.closed == old(conn.closed)
    {
      var n, e := conn.Write(payload);
      if e.Some? {
        return e;
      }
      if n != |payload| {
        return Some(ShortWrite);
      }
      return None;
    }

    method ReceivePacket() returns (r: Result<Bytes>)
      modifies conn
      ensures r == ReceivedPacket(old(conn.Deadline()), old(conn.inbox))
      ensures conn.inbox == InboxAfter(old(conn.Deadline()), old(conn.inbox))
      ensures conn.sendScript == old(conn.sendScript) && conn.outbox == old(conn.outbox)
      ensures conn.closed == old(conn.closed)
    {
      var deadline := conn.Deadline();
      if deadline.Some? {
        return Err(deadline.value);
      }
      var buf := new byte[MaxPacket];
      var n, err := conn.Read(buf);
      if err.Some? {
        return Err(err.value);
      }
      r := Ok(buf[..n]);
    }

    method Receive() returns (r: Result<Bytes>)
      modifies conn
      ensures r == Received(old(conn.Deadline()), old(conn.inbox))
      ensures conn.inbox == InboxAfter(old(conn.Deadline()), old(conn.inbox))
      ensures conn.sendScript == old(conn.sendScript) && conn.outbox == old(conn.outbox)
      ensures conn.closed == old(conn.closed)
    {
      var buf := ReceivePacket();
      if buf.Err? {
        return Err(buf.error);
      }
      if |buf.value| == 0 {
        return Err(Panic(OutOfRange));
      }
      if buf.value[0] == SplitMarker {
        return Err(SplitPacket);
      }
      if |buf.value| < 4 {
        return Err(Panic(OutOfRange));
      }
      r := Ok(buf.value[4..]);
    }
  }

  // ---------------------------------------------------------------------
  // Properties

  /** A send without error put the whole payload on the wire. */
  lemma SendSuccessIsWhole(script: seq<Sent>, p: Bytes)
    requires SendResult(script, p).None?
    ensures WriteDatagram(script, p).err.None? && p[..WriteDatagram(script, p).n] == p
  {
  }

  /** A datagram cut short by the writer is an error, never a success. */
  lemma SendShortIsError(k: nat, t: seq<Sent>, p: Bytes)
    requires k < |p|
    ensures SendResult([Partial(k)] + t, p) == Some(ShortWrite)
  {
    assert ([Partial(k)] + t)[0] == Partial(k);
  }

  /** What receive returns is a datagram of at most 1500 bytes without its
      first four: at most 1496 bytes. */
  lemma ReceivedBound(deadline: Option<Error>, inbox: seq<Arrival>)
    requires Received(deadline, inbox).Ok?
    ensures |Received(deadline, inbox).value| <= MaxPacket - 4
    ensures var p := ReceivedPacket(deadline, inbox).value;
      p[4..] == Received(deadline, inbox).value
  {
  }

  /** receive passes receivePacket's errors on unchanged. */
  lemma ReceivedPropagates(deadline: Option<Error>, inbox: seq<Arrival>)
    requires ReceivedPacket(deadline, inbox).Err?
    ensures Received(deadline, inbox) == ReceivedPacket(deadline, inbox)
  {
  }

  /** Round trip: a datagram that is a header and a payload of up to 1496
      bytes, with a first header byte other than FE, gives the payload back. */
  lemma ReceivedOfDatagram(header: Bytes, payload: Bytes, t: seq<Arrival>)
    requires |header| == 4 && header[0] != SplitMarker && |payload| <= MaxPacket - 4
    ensures Received(None, [Packet(header + payload)] + t) == Ok(payload)
  {
    var p := header + payload;
    assert ([Packet(p)] + t)[0] == Packet(p);
    assert p[..Min(|p|, MaxPacket)] == p;
    assert p[4..] == payload;
  }
}
