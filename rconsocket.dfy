/** The RCON connection (rconsocket.go): send writes a frame to the TCP
    connection, receive reads one frame back by its little-endian length
    prefix. */
module RconSocket {
  import opened Errors
  import opened Wire
  import opened Net

  function Zeros(n: nat): (z: Bytes)
    ensures |z| == n && forall i | 0 <= i < n :: z[i] == 0
  {
    seq(n, _ => 0)
  }

  /** What one Read into make([]byte, total) leaves in the whole buffer:
      the n bytes delivered, then the zeros make put there. */
  function Filled(part: Bytes, total: nat): (b: Bytes)
    requires |part| <= total
    ensures |b| == total && b[..|part|] == part
  {
    part + Zeros(total - |part|)
  }

  /** The outcome of receive's loop: the frame or the error, the stream
      left, and whether some Read delivered fewer bytes than it was asked. */
  datatype Framing = Framing(result: Result<Bytes>, rest: seq<Chunk>, partial: bool)

  /** The loop `for total > 0` over a frame read so far into acc: a Read
      into a fresh buffer of total bytes that delivers n > 0 bytes appends
      the whole buffer, not its first n bytes, and lowers total by n; io.EOF
      ends the loop with that error; any other error is dropped. */
  function Reframe(s: seq<Chunk>, total: int, acc: Bytes): (r: Framing)
    ensures r.result.Ok? ==> |acc| <= |r.result.value| && r.result.value[..|acc|] == acc
    decreases Weight(s)
  {
    if total <= 0 then Framing(Ok(acc), s, false)
    else
      var d := ReadChunk(s, total);
      if d.err == Some(Eof) then Framing(Err(Eof), d.rest, false)
      else
        var next := if |d.bytes| > 0 then acc + Filled(d.bytes, total) else acc;
        var r := Reframe(d.rest, total - |d.bytes|, next);
        assert r.result.Ok? ==> r.result.value[..|acc|] == r.result.value[..|next|][..|acc|];
        r.(partial := r.partial || 0 < |d.bytes| < total)
  }

  /** receive on a connection whose SetReadDeadline returns deadline: the
      4-byte length prefix is read through a TeeReader into the frame
      buffer, so a failed prefix read (a panic in readLong that the deferred
      recover turns into the error) returns that error. */
  function ReceiveFrame(deadline: Option<Error>, s: seq<Chunk>): (r: Framing)
    ensures deadline.Some? ==> r == Framing(Err(deadline.value), s, false)
    ensures deadline.None? && ReadFullStream(s, 4, []).err.Some? ==>
              r.result == Err(ReadFullStream(s, 4, []).err.value)
    ensures r.result.Ok? ==> deadline.None? && 4 <= |r.result.value|
    ensures r.result.Ok? ==> r.result.value[..4] == ReadFullStream(s, 4, []).bytes
  {
    if deadline.Some? then Framing(Err(deadline.value), s, false)
    else
      var h := ReadFullStream(s, 4, []);
      if h.err.Some? then Framing(Err(h.err.value), h.rest, false)
      else Reframe(h.rest, Signed(h.bytes), h.bytes)
  }

  /** One turn of the loop, unfolded. */
  lemma ReframeStep(s: seq<Chunk>, total: int, acc: Bytes)
    requires total > 0
    ensures var d := ReadChunk(s, total);
      var r := Reframe(s, total, acc);
      if d.err == Some(Eof) then r.result == Err(Eof) && r.rest == d.rest
      else
        var n := Reframe(d.rest, total - |d.bytes|, if |d.bytes| > 0 then acc + Filled(d.bytes, total) else acc);
        r.result == n.result && r.rest == n.rest
  {
  }

  class RconSocket {
    const conn: StreamConn

    constructor (conn: StreamConn)
      ensures this.conn == conn
    {
      this.conn := conn;
    }

    method Close()
      modifies conn
      ensures conn.closed
      ensures conn.stream == old(conn.stream) && conn.written == old(conn.written)
      ensures conn.writeFaults == old(conn.writeFaults)
    {
      conn.Close();
    }

    /** A failed SetWriteDeadline returns its error before anything is
        written; otherwise the error of Write, whose count is not checked. */
    method Send(p: Bytes) returns (err: Option<Error>)
      modifies conn
      ensures old(conn.WriteDeadline()).Some? ==>
                err == old(conn.WriteDeadline()) && conn.writeFaults == old(conn.writeFaults)
      ensures old(conn.WriteDeadline()).None? ==>
                err == NextWriteFault(old(conn.writeFaults)) &&
                conn.writeFaults == (if old(conn.writeFaults) == [] then [] else old(conn.writeFaults)[1..])
      ensures conn.written == (if err.None? then old(conn.written) + p else old(conn.written))
      ensures conn.stream == old(conn.stream) && conn.closed == old(conn.closed)
    {
      var deadline := conn.WriteDeadline();
      if deadline.Some? {
        return deadline;
      }
      err := conn.Write(p);
    }

    method Receive() returns (frame: Result<Bytes>)
      modifies conn
      ensures var f := ReceiveFrame(old(conn.ReadDeadline()), old(conn.stream));
        frame == f.result && conn.stream == f.rest
      ensures conn.written == old(conn.written) && conn.writeFaults == old(conn.writeFaults)
      ensures conn.closed == old(conn.closed)
    {
      var deadline := conn.ReadDeadline();
      if deadline.Some? {
        return Err(deadline.value);
      }
      var buf := new Buffer();
      var prefix, err := ReadFullTee(conn, buf, 4);
      assert ReceiveFrame(None, old(conn.stream)) == (if err.Some? then Framing(Err(err.value), conn.stream, false)
        else Reframe(conn.stream, Signed(prefix), prefix));
      if err.Some? {
        return Err(err.value);
      }
      assert buf.bytes == prefix;
      var total := Signed(prefix);
      ghost var goal := Reframe(conn.stream, total, buf.bytes);
      while total > 0
        invariant Reframe(conn.stream, total, buf.bytes).result == goal.result
        invariant Reframe(conn.stream, total, buf.bytes).rest == goal.rest
        invariant conn.written == old(conn.written) && conn.writeFaults == old(conn.writeFaults)
        invariant !conn.closed && conn.closed == old(conn.closed)
        decreases Weight(conn.stream)
      {
        ReframeStep(conn.stream, total, buf.bytes);
        var b, n, e := ReadBuffer(conn, total);
        if n > 0 {
          buf.Write(b);
          total := total - n;
        }
        if e == Some(Eof) {
          return Err(Eof);
        }
      }
      frame := Ok(buf.bytes);
    }
  }

  /** b := make([]byte, total); n, err := conn.Read(b): the whole buffer
      after the Read, n and err. */
  method ReadBuffer(conn: StreamConn, total: nat) returns (b: Bytes, n: nat, err: Option<Error>)
    modifies conn
    ensures old(conn.closed) ==> n == 0 && err == Some(Closed) && conn.stream == old(conn.stream) && b == Zeros(total)
    ensures !old(conn.closed) ==> var d := ReadChunk(old(conn.stream), total);
      n == |d.bytes| && err == d.err && conn.stream == d.rest && b == Filled(d.bytes, total)
    ensures conn.written == old(conn.written) && conn.writeFaults == old(conn.writeFaults)
    ensures conn.closed == old(conn.closed)
  {
    var a := new byte[total](_ => 0);
    ghost var before := a[..];
    n, err := conn.Read(a);
    assert a[..] == a[..n] + a[n..];
    assert before[n..] == Zeros(total - n);
    b := a[..];
  }

  // ---------------------------------------------------------------------
  // Properties of receive

  /** Nothing is returned unless a 4-byte prefix was read, and a returned
      frame starts with exactly those four bytes. */
  lemma ReceiveNeedsPrefix(deadline: Option<Error>, s: seq<Chunk>)
    ensures var h := ReadFullStream(s, 4, []);
      var r := ReceiveFrame(deadline, s).result;
      (deadline.Some? ==> r == Err(deadline.value)) &&
      (deadline.None? && h.err.Some? ==> r == Err(h.err.value)) &&
      (r.Ok? ==> h.err.None? && |r.value| >= 4 && r.value[..4] == h.bytes)
  {
  }

  /** A length of zero or less skips the loop: the frame is the prefix alone. */
  lemma ReceiveNonPositiveLength(s: seq<Chunk>)
    requires ReadFullStream(s, 4, []).err.None? && Signed(ReadFullStream(s, 4, []).bytes) <= 0
    ensures ReceiveFrame(None, s).result == Ok(ReadFullStream(s, 4, []).bytes)
  {
  }

  /** Every delivering Read adds all total bytes while total falls by only
      n: the loop adds at least total bytes, exactly total when no Read was
      partial. */
  lemma {:induction false} ReframeLength(s: seq<Chunk>, total: int, acc: Bytes)
    requires total >= 0
    ensures var r := Reframe(s, total, acc);
      r.result.Ok? ==> |r.result.value| >= |acc| + total &&
                       (|r.result.value| == |acc| + total <==> !r.partial)
    decreases Weight(s)
  {
    if total > 0 {
      var d := ReadChunk(s, total);
      if d.err != Some(Eof) {
        var next := if |d.bytes| > 0 then acc + Filled(d.bytes, total) else acc;
        ReframeLength(d.rest, total - |d.bytes|, next);
      }
    }
  }

  /** On success the frame is at least 4 + L bytes for the length L of its
      prefix, and exactly 4 + L when no Read came back short. */
  lemma ReceiveLength(s: seq<Chunk>)
    requires ReceiveFrame(None, s).result.Ok?
    ensures var f := ReceiveFrame(None, s);
      var len := Signed(f.result.value[..4]);
      |f.result.value| >= 4 + len && (len >= 0 ==> (|f.result.value| == 4 + len <==> !f.partial))
  {
    var h := ReadFullStream(s, 4, []);
    ReceiveNeedsPrefix(None, s);
    if Signed(h.bytes) >= 0 {
      ReframeLength(h.rest, Signed(h.bytes), h.bytes);
    }
  }

  /** A frame that arrives in one piece is returned exactly: its prefix and
      the L bytes that follow, nothing after. */
  lemma ReceiveWholeFrame(len: Int32, body: Bytes, t: seq<Chunk>)
    requires 0 < len <= |body|
    ensures ReceiveFrame(None, [Data(EncodeLong(len) + body)] + t).result ==
              Ok(EncodeLong(len) + body[..len])
  {
    var s := [Data(EncodeLong(len) + body)] + t;
    var rest := [Data(body)] + t;
    PrefixOfFirstChunk(EncodeLong(len), body, t);
    DecodeLongOfEncodeLong(len);
    ReframeStep(rest, len, EncodeLong(len));
    var d := ReadChunk(rest, len);
    assert d.bytes == body[..len] && d.err.None? by {
      assert rest[0] == Data(body);
    }
    assert Filled(body[..len], len) == body[..len];
    assert Reframe(d.rest, 0, EncodeLong(len) + body[..len]).result == Ok(EncodeLong(len) + body[..len]);
  }

  /** A first chunk of at least four bytes holds the whole length prefix. */
  lemma PrefixOfFirstChunk(p: Bytes, body: Bytes, t: seq<Chunk>)
    requires |p| == 4 && body != []
    ensures ReadFullStream([Data(p + body)] + t, 4, []) == Delivery(p, None, [Data(body)] + t)
  {
    var s := [Data(p + body)] + t;
    ReadFullStep(s, 4, []);
    assert s[0] == Data(p + body) && s[1..] == t;
    assert (p + body)[..4] == p && (p + body)[4..] == body;
  }

  /** An illustration of the padding that ReframeLength and ReceiveLength
      state in general: a 2-byte body split over two Reads comes back as
      three bytes, the first Read's unfilled byte a zero. */
  lemma ReceiveSplitFrameIsPadded()
    ensures ReceiveFrame(None, [Data(EncodeLong(2) + [7]), Data([8])]).result ==
              Ok(EncodeLong(2) + [7, 0, 8])
  {
    var s := [Data(EncodeLong(2) + [7]), Data([8])];
    var rest := [Data([7]), Data([8])];
    assert [Data(EncodeLong(2) + [7])] + [Data([8])] == s;
    assert [Data([7])] + [Data([8])] == rest;
    assert ReceiveFrame(None, s) == Reframe(rest, 2, EncodeLong(2)) by {
      PrefixOfFirstChunk(EncodeLong(2), [7], [Data([8])]);
      DecodeLongOfEncodeLong(2);
    }
    ReframeStep(rest, 2, EncodeLong(2));
    assert ReadChunk(rest, 2) == Delivery([7], None, [Data([8])]) by {
      assert rest[0] == Data([7]) && rest[1..] == [Data([8])];
    }
    assert Filled([7], 2) == [7, 0];
    ReframeStep([Data([8])], 1, EncodeLong(2) + [7, 0]);
    assert ReadChunk([Data([8])], 1) == Delivery([8], None, []) by {
      assert [Data([8])][1..] == [];
    }
    assert Filled([8], 1) == [8];
    assert EncodeLong(2) + [7, 0] + [8] == EncodeLong(2) + [7, 0, 8];
  }

  /** io.EOF, or the end of the stream, aborts the loop with io.EOF. */
  lemma ReframeEofAborts(s: seq<Chunk>, total: int, acc: Bytes)
    requires total > 0 && (s == [] || s[0] == Fault(Eof))
    ensures Reframe(s, total, acc).result == Err(Eof)
  {
  }

  /** Any other read error is dropped: the loop goes on as if that Read had
      not happened. */
  lemma ReframeIgnoresOtherFaults(e: Error, s: seq<Chunk>, total: int, acc: Bytes)
    requires e != Eof && total > 0
    ensures Reframe([Fault(e)] + s, total, acc) == Reframe(s, total, acc)
  {
    var s' := [Fault(e)] + s;
    assert s'[0] == Fault(e) && s'[1..] == s;
    assert ReadChunk(s', total) == Delivery([], Some(e), s);
    var r := Reframe(s, total, acc);
    assert Reframe(s', total, acc) == r.(partial := r.partial || false);
  }
}
