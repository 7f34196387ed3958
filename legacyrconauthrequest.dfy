/** The older RCON authentication request (rconauthrequest.go). As
    written the file does not compile (an int assigned to an int32 field,
    a type used as a value, and calls of writeLilEndianInt32 and
    writeNullTerminator, which none of the files this model draws on
    defines); this is
    the evident intent: the size is int32(len(passwd) + 8), the buffer a
    fresh bytes.Buffer, and the two helpers writeLong (the four
    little-endian bytes of an int32) and writeNull (one NUL byte). */
module LegacyRconAuthRequest {
  import opened Errors
  import opened Wire
  import opened Comm

  // The file redeclares the SERVERDATA_* request types.
  const ServerdataAuth: Int32 := 3
  const ServerdataExecCommand: Int32 := 2
  const ServerdataAuthResponse: Int32 := 2
  const ServerdataResponseValue: Int32 := 0

  /** newRconAuthRequest with the id drawn by the caller. */
  function NewAuthRequest(passwd: Bytes, id: Int31): (r: RconRequest)
    ensures r.typ == ServerdataAuth && r.body == passwd && r.id == id
    ensures |passwd| + 8 < 0x8000_0000 ==> r.size == |passwd| + 8
  {
    RconRequest(Wrap32(|passwd| + 8), id, ServerdataAuth, passwd)
  }

  /** rconauthrequest.constructPacket: the same layout as every RCON frame. */
  method ConstructPacket(r: RconRequest) returns (out: Bytes)
    ensures out == RconFrame(r)
    ensures |out| == |r.body| + 14 && out[12..] == r.body + [0, 0]
  {
    var buf := new Buffer();
    WriteLong(buf, r.size);
    WriteLong(buf, r.id);
    WriteLong(buf, r.typ);
    buf.Write(r.body);
    WriteNull(buf);
    WriteNull(buf);
    out := buf.bytes;
  }

  /** The packet is len(passwd) + 14 bytes, and its size field is 2 less
      than the number of bytes that follow it. */
  lemma AuthPacketLength(passwd: Bytes, id: Int31)
    requires |passwd| + 10 < 0x8000_0000
    ensures var q := NewAuthRequest(passwd, id);
      |RconFrame(q)| == |passwd| + 14 && q.size == |RconFrame(q)| - 4 - 2
  {
  }

  /** Against the current revision's authentication request: the frames
      differ only in the size field, which is 2 smaller here. */
  lemma AuthFrameAgainstCurrent(passwd: Bytes, id: Int31)
    requires |passwd| + 10 < 0x8000_0000
    ensures var older := RconFrame(NewAuthRequest(passwd, id));
      var cur := RconFrame(NewRconRequest(RrtAuth, passwd, id));
      older[4..] == cur[4..] &&
      DecodeLong(older[..4]) == DecodeLong(cur[..4]) - 2
  {
    var a := NewAuthRequest(passwd, id);
    var c := NewRconRequest(RrtAuth, passwd, id);
    DecodeLongOfEncodeLong(a.size);
    DecodeLongOfEncodeLong(c.size);
    assert RconFrame(a)[..4] == EncodeLong(a.size);
    assert RconFrame(c)[..4] == EncodeLong(c.size);
    assert RconFrame(a)[4..] == EncodeLong(id) + (EncodeLong(RrtAuth) + (passwd + [0, 0]));
    assert RconFrame(c)[4..] == EncodeLong(id) + (EncodeLong(RrtAuth) + (passwd + [0, 0]));
  }

  /** What the current decoder makes of such a frame: it takes size - 10
      body bytes, so the password comes back two bytes short, and a
      password shorter than two bytes gives a negative length. */
  lemma CurrentDecoderTruncatesPassword(passwd: Bytes, id: Int31, t: Bytes)
    requires |passwd| + 10 < 0x8000_0000
    ensures var r := UnmarshalRconResponse(RconFrame(NewAuthRequest(passwd, id)) + t);
      (|passwd| < 2 ==> r == Err(BadLength)) &&
      (|passwd| >= 2 ==> r == Ok(RconResponse(|passwd| + 8, id, RrtAuth, passwd[..|passwd| - 2])))
  {
    var q := NewAuthRequest(passwd, id);
    var tail := [0, 0] + t;
    Nest4(EncodeLong(q.size), EncodeLong(q.id), EncodeLong(q.typ), passwd + [0, 0], t);
    SeqAssoc(passwd, [0, 0], t);
    ReadLongOfWriteLong(q.size, EncodeLong(q.id) + (EncodeLong(q.typ) + (passwd + tail)));
    ReadLongOfWriteLong(q.id, EncodeLong(q.typ) + (passwd + tail));
    ReadLongOfWriteLong(q.typ, passwd + tail);
    if |passwd| >= 2 {
      assert (passwd + tail)[..|passwd| - 2] == passwd[..|passwd| - 2];
    }
  }
}
