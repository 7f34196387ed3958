/** Scripted stand-ins for the connections the sockets hold.

    A stream connection (TCP) delivers a script of chunks: each chunk is
    either bytes that the peer has sent or an error that one Read reports.
    A packet connection (UDP) delivers a script of datagrams. Writes follow a
    script of outcomes and are logged. The end of a read script is the peer
    closing the stream (io.EOF) or, for datagrams, the read deadline
    expiring. A transport as the server sees it is a script of whole
    receive results and a log of what was sent. */
module Net {
  import opened Errors
  import opened Wire

  function Min(a: int, b: int): int
  {
    if a <= b then a else b
  }

  // ---------------------------------------------------------------------
  // Stream connections

  datatype Chunk = Data(bytes: Bytes) | Fault(err: Error)

  /** A measure that every Read of at least one byte decreases. */
  function Weight(s: seq<Chunk>): nat
  {
    if s == [] then 0 else 1 + (if s[0].Data? then |s[0].bytes| else 0) + Weight(s[1..])
  }

  lemma WeightCons(c: Chunk, t: seq<Chunk>)
    ensures Weight([c] + t) == 1 + (if c.Data? then |c.bytes| else 0) + Weight(t)
  {
    assert ([c] + t)[1..] == t;
  }

  /** What one call of Read returned: the bytes, the error, and the script left. */
  datatype Delivery = Delivery(bytes: Bytes, err: Option<Error>, rest: seq<Chunk>)

  /** conn.Read(b) with len(b) == k: at most k bytes of the next chunk (the
      remainder of a longer chunk stays for the next Read), or that chunk's
      error, or io.EOF once the script is over. */
  function ReadChunk(s: seq<Chunk>, k: nat): (r: Delivery)
    ensures |r.bytes| <= k
    ensures r.err.Some? ==> r.bytes == []
    ensures s == [] ==> r == Delivery([], Some(Eof), [])
    ensures s != [] && k > 0 ==> Weight(r.rest) < Weight(s)
  {
    if s == [] then Delivery([], Some(Eof), [])
    else
      match s[0]
      case Fault(e) => Delivery([], Some(e), s[1..])
      case Data(bs) =>
        if |bs| <= k then Delivery(bs, None, s[1..])
        else
          WeightCons(Data(bs[k..]), s[1..]);
          Delivery(bs[..k], None, [Data(bs[k..])] + s[1..])
  }

  /** io.ReadFull(conn, b) with len(b) == n, as io.ReadAtLeast runs it: Read
      into the unfilled tail until n bytes have come or a Read fails; the
      failure is io.ErrUnexpectedEOF when io.EOF comes after some bytes. */
  function ReadFullStream(s: seq<Chunk>, n: nat, got: Bytes): (r: Delivery)
    requires |got| <= n
    ensures |got| <= |r.bytes| <= n && r.bytes[..|got|] == got
    ensures r.err.None? <==> |r.bytes| == n
    ensures r.err.Some? ==> r.err.value != Eof || r.bytes == []
    decreases Weight(s)
  {
    if |got| == n then Delivery(got, None, s)
    else
      var c := ReadChunk(s, n - |got|);
      if c.err.Some? then
        Delivery(got, Some(if c.err.value == Eof && |got| > 0 then UnexpectedEof else c.err.value), c.rest)
      else
        var r := ReadFullStream(c.rest, n, got + c.bytes);
        assert r.bytes[..|got|] == r.bytes[..|got + c.bytes|][..|got|];
        r
  }

  /** One Read inside io.ReadFull, unfolded. */
  lemma ReadFullStep(s: seq<Chunk>, n: nat, got: Bytes)
    requires |got| < n
    ensures var c := ReadChunk(s, n - |got|);
      ReadFullStream(s, n, got) ==
        if c.err.Some? then
          Delivery(got, Some(if c.err.value == Eof && |got| > 0 then UnexpectedEof else c.err.value), c.rest)
        else ReadFullStream(c.rest, n, got + c.bytes)
  {
  }

  /** A net.Conn for a stream: a script of what the peer sends, a script of
      write outcomes, and a log of the bytes written. Once closed, every
      Read, Write and deadline call fails with net.ErrClosed. */
  class StreamConn {
    var stream: seq<Chunk>
    var writeFaults: seq<Option<Error>>
    var written: Bytes
    var closed: bool
    /** What SetReadDeadline and SetWriteDeadline return. */
    const readDeadlineFault: Option<Error>
    const writeDeadlineFault: Option<Error>

    constructor (stream: seq<Chunk>, writeFaults: seq<Option<Error>>,
                 readDeadlineFault: Option<Error>, writeDeadlineFault: Option<Error>)
      ensures this.stream == stream && this.writeFaults == writeFaults
      ensures this.readDeadlineFault == readDeadlineFault
      ensures this.writeDeadlineFault == writeDeadlineFault
      ensures written == [] && !closed
    {
      this.stream := stream;
      this.writeFaults := writeFaults;
      this.readDeadlineFault := readDeadlineFault;
      this.writeDeadlineFault := writeDeadlineFault;
      written := [];
      closed := false;
    }

    /** What SetReadDeadline returns. */
    function ReadDeadline(): (r: Option<Error>)
      reads this
      ensures closed ==> r == Some(Closed)
      ensures !closed ==> r == readDeadlineFault
    {
      if closed then Some(Closed) else readDeadlineFault
    }

    /** What SetWriteDeadline returns. */
    function WriteDeadline(): (r: Option<Error>)
      reads this
      ensures closed ==> r == Some(Closed)
      ensures !closed ==> r == writeDeadlineFault
    {
      if closed then Some(Closed) else writeDeadlineFault
    }

    method Read(b: array<byte>) returns (n: nat, err: Option<Error>)
      modifies this, b
      ensures old(closed) ==> n == 0 && err == Some(Closed) && stream == old(stream) && b[..] == old(b[..])
      ensures !old(closed) ==> var d := ReadChunk(old(stream), b.Length);
        n == |d.bytes| && err == d.err && stream == d.rest && b[..n] == d.bytes
      ensures n <= b.Length && b[n..] == old(b[n..])
      ensures written == old(written) && writeFaults == old(writeFaults) && closed == old(closed)
    {
      if closed {
        return 0, Some(Closed);
      }
      var d := ReadChunk(stream, b.Length);
      n, err := |d.bytes|, d.err;
      stream := d.rest;
      var i := 0;
      while i < n
        modifies b
        invariant 0 <= i <= n
        invariant b[..i] == d.bytes[..i]
        invariant b[n..] == old(b[n..])
      {
        b[i] := d.bytes[i];
        i := i + 1;
      }
    }

    /** conn.Write(p): the next scripted outcome, success when the script is
        over; only a successful write reaches the peer. */
    method Write(p: Bytes) returns (err: Option<Error>)
      modifies this
      ensures old(closed) ==> err == Some(Closed) && writeFaults == old(writeFaults)
      ensures !old(closed) ==> err == NextWriteFault(old(writeFaults))
      ensures !old(closed) ==> writeFaults == (if old(writeFaults) == [] then [] else old(writeFaults)[1..])
      ensures written == (if err.None? then old(written) + p else old(written))
      ensures stream == old(stream) && closed == old(closed)
    {
      if closed {
        return Some(Closed);
      }
      err := NextWriteFault(writeFaults);
      if writeFaults != [] {
        writeFaults := writeFaults[1..];
      }
      if err.None? {
        written := written + p;
      }
    }

    method Close()
      modifies this
      ensures closed
      ensures stream == old(stream) && written == old(written) && writeFaults == old(writeFaults)
    {
      closed := true;
    }
  }

  function NextWriteFault(script: seq<Option<Error>>): Option<Error>
  {
    if script == [] then None else script[0]
  }

  /** One Read through io.TeeReader(conn, tee) into a buffer of k bytes:
      what conn.Read delivered is also written to tee. */
  method TeeRead(conn: StreamConn, tee: Buffer, k: nat) returns (part: Bytes, err: Option<Error>)
    modifies conn, tee
    ensures old(conn.closed) ==> part == [] && err == Some(Closed) && conn.stream == old(conn.stream)
    ensures !old(conn.closed) ==> var d := ReadChunk(old(conn.stream), k);
      part == d.bytes && err == d.err && conn.stream == d.rest
    ensures tee.bytes == old(tee.bytes) + part
    ensures conn.written == old(conn.written) && conn.writeFaults == old(conn.writeFaults)
    ensures conn.closed == old(conn.closed)
  {
    var b := new byte[k];
    var n;
    n, err := conn.Read(b);
    part := b[..n];
    tee.Write(part);
  }

  /** io.ReadFull(io.TeeReader(conn, tee), b) with len(b) == n: the bytes
      read, the error, and every byte read is also copied into tee. */
  method ReadFullTee(conn: StreamConn, tee: Buffer, n: nat) returns (got: Bytes, err: Option<Error>)
    modifies conn, tee
    ensures old(conn.closed) ==>
      got == [] && err == (if n == 0 then None else Some(Closed)) && conn.stream == old(conn.stream)
    ensures !old(conn.closed) ==> var d := ReadFullStream(old(conn.stream), n, []);
      got == d.bytes && err == d.err && conn.stream == d.rest
    ensures tee.bytes == old(tee.bytes) + got
    ensures conn.written == old(conn.written) && conn.writeFaults == old(conn.writeFaults)
    ensures conn.closed == old(conn.closed)
  {
    got, err := [], None;
    while |got| < n
      invariant |got| <= n
      invariant conn.closed ==> got == [] && conn.stream == old(conn.stream)
      invariant !conn.closed ==> ReadFullStream(conn.stream, n, got) == ReadFullStream(old(conn.stream), n, [])
      invariant tee.bytes == old(tee.bytes) + got
      invariant conn.written == old(conn.written) && conn.writeFaults == old(conn.writeFaults)
      invariant conn.closed == old(conn.closed)
      decreases Weight(conn.stream)
    {
      ReadFullStep(conn.stream, n, got);
      SeqAssoc(old(tee.bytes), got, ReadChunk(conn.stream, n - |got|).bytes);
      var part, e := TeeRead(conn, tee, n - |got|);
      if e.Some? {
        err := if e.value == Eof && |got| > 0 then Some(UnexpectedEof) else e;
        assert got + part == got;
        return;
      }
      got := got + part;
    }
  }

  // ---------------------------------------------------------------------
  // Packet connections

  datatype Arrival = Packet(bytes: Bytes) | ReadFault(err: Error)

  /** The outcome of one datagram write: sent whole, only n bytes, or refused. */
  datatype Sent = Whole | Partial(n: nat) | Refused(err: Error)

  /** One read of a datagram into a buffer of cap bytes: a longer datagram
      is cut to cap bytes, the end of the script is an expired deadline. */
  datatype Reception = Reception(bytes: Bytes, err: Option<Error>, rest: seq<Arrival>)

  function ReadDatagram(inbox: seq<Arrival>, cap: nat): (r: Reception)
    ensures |r.bytes| <= cap
    ensures r.err.Some? ==> r.bytes == []
    ensures inbox == [] ==> r == Reception([], Some(Timeout), [])
    ensures inbox != [] ==> r.rest == inbox[1..]
    ensures inbox != [] && inbox[0].Packet? ==>
              r.err.None? && r.bytes == inbox[0].bytes[..Min(|inbox[0].bytes|, cap)]
  {
    if inbox == [] then Reception([], Some(Timeout), [])
    else
      match inbox[0]
      case ReadFault(e) => Reception([], Some(e), inbox[1..])
      case Packet(p) => Reception(p[..Min(|p|, cap)], None, inbox[1..])
  }

  /** The count and error of one datagram write of p. */
  datatype WriteResult = WriteResult(n: nat, err: Option<Error>)

  function WriteDatagram(script: seq<Sent>, p: Bytes): (r: WriteResult)
    ensures r.n <= |p|
    ensures r.err.Some? ==> r.n == 0
  {
    if script == [] then WriteResult(|p|, None)
    else
      match script[0]
      case Whole => WriteResult(|p|, None)
      case Partial(k) => WriteResult(Min(k, |p|), None)
      case Refused(e) => WriteResult(0, Some(e))
  }

  /** A net.Conn for datagrams. Once closed, every Read, Write and
      deadline call fails with net.ErrClosed. */
  class PacketConn {
    var inbox: seq<Arrival>
    var sendScript: seq<Sent>
    /** The datagrams that left, each cut to the count its write reported. */
    var outbox: seq<Bytes>
    var closed: bool
    const deadlineFault: Option<Error>

    constructor (inbox: seq<Arrival>, sendScript: seq<Sent>, deadlineFault: Option<Error>)
      ensures this.inbox == inbox && this.sendScript == sendScript
      ensures this.deadlineFault == deadlineFault
      ensures outbox == [] && !closed
    {
      this.inbox := inbox;
      this.sendScript := sendScript;
      this.deadlineFault := deadlineFault;
      outbox := [];
      closed := false;
    }

    /** What SetReadDeadline returns. */
    function Deadline(): (r: Option<Error>)
      reads this
      ensures closed ==> r == Some(Closed)
      ensures !closed ==> r == deadlineFault
    {
      if closed then Some(Closed) else deadlineFault
    }

    method Read(b: array<byte>) returns (n: nat, err: Option<Error>)
      modifies this, b
      ensures old(closed) ==> n == 0 && err == Some(Closed) && inbox == old(inbox)
      ensures !old(closed) ==> var d := ReadDatagram(old(inbox), b.Length);
        n == |d.bytes| && err == d.err && inbox == d.rest && b[..n] == d.bytes
      ensures n <= b.Length
      ensures sendScript == old(sendScript) && outbox == old(outbox) && closed == old(closed)
    {
      if closed {
        return 0, Some(Closed);
      }
      var d := ReadDatagram(inbox, b.Length);
      n, err := |d.bytes|, d.err;
      inbox := d.rest;
      var i := 0;
      while i < n
        modifies b
        invariant 0 <= i <= n
        invariant b[..i] == d.bytes[..i]
      {
        b[i] := d.bytes[i];
        i := i + 1;
      }
    }

    method Write(p: Bytes) returns (n: nat, err: Option<Error>)
      modifies this
      ensures old(closed) ==> n == 0 && err == Some(Closed) && sendScript == old(sendScript)
      ensures !old(closed) ==> WriteResult(n, err) == WriteDatagram(old(sendScript), p)
      ensures !old(closed) ==> sendScript == (if old(sendScript) == [] then [] else old(sendScript)[1..])
      ensures n <= |p|
      ensures outbox == (if err.None? then old(outbox) + [p[..n]] else old(outbox))
      ensures inbox == old(inbox) && closed == old(closed)
    {
      if closed {
        return 0, Some(Closed);
      }
      var w := WriteDatagram(sendScript, p);
      n, err := w.n, w.err;
      if sendScript != [] {
        sendScript := sendScript[1..];
      }
      if err.None? {
        outbox := outbox + [p[..n]];
      }
    }

    method Close()
      modifies this
      ensures closed
      ensures inbox == old(inbox) && sendScript == old(sendScript) && outbox == old(outbox)
    {
      closed := true;
    }
  }

  // ---------------------------------------------------------------------
  // Transports as the server sees them

  /** The state of a socket seen through its send and receive methods:
      the results receive will return, in order; the results send will
      return, in order (success once the script is over); the payloads
      sent successfully; whether the socket has been closed. */
  datatype Transport = Transport(inbox: seq<Result<Bytes>>, sendFaults: seq<Option<Error>>, sent: seq<Bytes>,
                                 closed: bool)

  datatype Sending = Sending(err: Option<Error>, after: Transport)
  datatype Receiving = Receiving(result: Result<Bytes>, after: Transport)

  /** A send: on a closed socket net.ErrClosed, otherwise the next scripted outcome. */
  function SendOn(t: Transport, p: Bytes): (r: Sending)
    ensures r.after.inbox == t.inbox && r.after.closed == t.closed
    ensures r.err.None? ==> r.after.sent == t.sent + [p]
    ensures r.err.Some? ==> r.after.sent == t.sent
    ensures t.closed ==> r == Sending(Some(Closed), t)
  {
    if t.closed then Sending(Some(Closed), t)
    else
      var err := if t.sendFaults == [] then None else t.sendFaults[0];
      var faults := if t.sendFaults == [] then [] else t.sendFaults[1..];
      Sending(err, t.(sendFaults := faults, sent := if err.None? then t.sent + [p] else t.sent))
  }

  /** A receive: on a closed socket net.ErrClosed, otherwise the next
      scripted result; once the script is over, the read deadline expires. */
  function ReceiveOn(t: Transport): (r: Receiving)
    ensures r.after.sent == t.sent && r.after.sendFaults == t.sendFaults && r.after.closed == t.closed
    ensures t.closed ==> r == Receiving(Err(Closed), t)
    ensures !t.closed && t.inbox == [] ==> r.result == Err(Timeout)
    ensures !t.closed && t.inbox != [] ==> r.result == t.inbox[0] && r.after.inbox == t.inbox[1..]
  {
    if t.closed then Receiving(Err(Closed), t)
    else if t.inbox == [] then Receiving(Err(Timeout), t)
    else Receiving(t.inbox[0], t.(inbox := t.inbox[1..]))
  }

  /** After Close, every send and every receive fails with net.ErrClosed
      and leaves the socket as it was. */
  lemma ClosedTransportFails(t: Transport, p: Bytes)
    requires t.closed
    ensures SendOn(t, p) == Sending(Some(Closed), t)
    ensures ReceiveOn(t) == Receiving(Err(Closed), t)
  {
  }

  /** A socket as server.go holds it. */
  class Endpoint {
    var state: Transport

    constructor (state: Transport)
      ensures this.state == state
    {
      this.state := state;
    }

    method Send(p: Bytes) returns (err: Option<Error>)
      modifies this
      ensures Sending(err, state) == SendOn(old(state), p)
    {
      var s := SendOn(state, p);
      err, state := s.err, s.after;
    }

    method Receive() returns (r: Result<Bytes>)
      modifies this
      ensures Receiving(r, state) == ReceiveOn(old(state))
    {
      var s := ReceiveOn(state);
      r, state := s.result, s.after;
    }

    method Close()
      modifies this
      ensures state == old(state).(closed := true)
    {
      state := state.(closed := true);
    }
  }
}
