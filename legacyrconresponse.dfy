/** The older RCON response decoder (rconresponse.go). It reads s - 8 body
    bytes where the current revision reads s - 10, and it does not recover,
    so every read failure escapes as a panic. */
module LegacyRconResponse {
  import opened Errors
  import opened Wire
  import opened Comm
  import opened LegacyRconAuthRequest

  /** The decoding of newRconResponse with its failures as plain errors. */
  function ReadFrame(b: Bytes): (r: Result<RconResponse>)
    ensures r.Err? ==> r.error == Eof || r.error == UnexpectedEof || r.error == BadLength
  {
    var size :- ReadLong(b);
    var id :- ReadLong(size.rest);
    var typ :- ReadLong(id.rest);
    var body :- ReadBytes(typ.rest, Wrap32(size.value - 8));
    Ok(RconResponse(size.value, id.value, typ.value, body.value))
  }

  /** newRconResponse: s - 8 is int32 arithmetic and wraps; with no recover,
      a failed read is a panic that reaches the caller. */
  function NewRconResponse(b: Bytes): (r: Result<RconResponse>)
    ensures |b| < 12 ==> r.Err?
    ensures |b| >= 12 && 0 <= Wrap32(Signed(b[..4]) - 8) <= |b| - 12 ==> r.Ok?
    ensures r.Err? ==> r.error == Panic(Eof) || r.error == Panic(UnexpectedEof) || r.error == Panic(BadLength)
    ensures r.Ok? ==> |b| >= 12 && r.value.size == Signed(b[..4]) && r.value.id == Signed(b[4..8])
    ensures r.Ok? ==> r.value.typ == Signed(b[8..12])
    ensures r.Ok? ==> var n := Wrap32(r.value.size - 8);
      0 <= n && 12 + n <= |b| && r.value.body == b[12..12 + n]
  {
    var r := ReadFrame(b);
    if r.Err? then Err(Panic(r.error))
    else
      assert b[4..][..4] == b[4..8] && b[4..][4..] == b[8..];
      assert b[8..][..4] == b[8..12] && b[8..][4..] == b[12..];
      assert b[12..][..|r.value.body|] == b[12..12 + |r.value.body|];
      r
  }

  /** A frame whose size counts its body plus d of the two trailing NULs:
      the decoded body is the body followed by those d NULs. */
  lemma DecodeOfFrame(q: RconRequest, d: nat, t: Bytes)
    requires d <= 2 && q.size == |q.body| + 8 + d
    ensures NewRconResponse(RconFrame(q) + t) ==
              Ok(RconResponse(q.size, q.id, q.typ, q.body + [0, 0][..d]))
  {
    var tail := [0, 0] + t;
    Nest4(EncodeLong(q.size), EncodeLong(q.id), EncodeLong(q.typ), q.body + [0, 0], t);
    SeqAssoc(q.body, [0, 0], t);
    ReadLongOfWriteLong(q.size, EncodeLong(q.id) + (EncodeLong(q.typ) + (q.body + tail)));
    ReadLongOfWriteLong(q.id, EncodeLong(q.typ) + (q.body + tail));
    ReadLongOfWriteLong(q.typ, q.body + tail);
    assert (q.body + tail)[..|q.body| + d] == q.body + [0, 0][..d];
  }

  /** On a frame of the older (or current) rconRequest, whose size is
      len(body) + 10, the body comes back with both NUL terminators. */
  lemma DecodeOfRequestFrame(typ: Int32, body: Bytes, id: Int31, t: Bytes)
    requires |body| + 10 < 0x8000_0000
    ensures NewRconResponse(RconFrame(NewRconRequest(typ, body, id)) + t) ==
              Ok(RconResponse(|body| + 10, id, typ, body + [0, 0]))
  {
    DecodeOfFrame(NewRconRequest(typ, body, id), 2, t);
    assert [0, 0][..2] == [0, 0];
  }

  /** On a frame of rconauthrequest, whose size is len(passwd) + 8, the body
      is exactly the password. */
  lemma DecodeOfAuthFrame(passwd: Bytes, id: Int31, t: Bytes)
    requires |passwd| + 10 < 0x8000_0000
    ensures NewRconResponse(RconFrame(NewAuthRequest(passwd, id)) + t) ==
              Ok(RconResponse(|passwd| + 8, id, ServerdataAuth, passwd))
  {
    DecodeOfFrame(NewAuthRequest(passwd, id), 0, t);
    assert passwd + [0, 0][..0] == passwd;
  }

  /** Against the current decoder: whenever the older one succeeds on a
      size of at least 10, the current one succeeds too, with the same
      header and the older body less its last two bytes. */
  lemma CurrentBodyIsShorter(b: Bytes)
    requires NewRconResponse(b).Ok? && NewRconResponse(b).value.size >= 10
    ensures var v := NewRconResponse(b).value;
      UnmarshalRconResponse(b) == Ok(RconResponse(v.size, v.id, v.typ, v.body[..|v.body| - 2]))
  {
    var v := NewRconResponse(b).value;
    var size := ReadLong(b).value;
    var id := ReadLong(size.rest).value;
    var typ := ReadLong(id.rest).value;
    assert Wrap32(v.size - 8) == v.size - 8 && Wrap32(v.size - 10) == v.size - 10;
    assert ReadBytes(typ.rest, v.size - 8).Ok?;
    assert ReadBytes(typ.rest, v.size - 10).value.value == v.body[..|v.body| - 2];
  }
}
