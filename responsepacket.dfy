/** The older response packet decoder (responsepacket.go). As written the
    file does not compile (a byte slice stored in a string field); with the
    evident conversion it still never succeeds: after the 12 header bytes
    it asks for len(b) - 2 body bytes, ten more than remain. */
module ResponsePacket {
  import opened Errors
  import opened Wire
  import opened Comm

  datatype ResponsePacket = ResponsePacket(size: Int32, id: Int32, reqType: Int32, body: Bytes)

  /** newResponsePacket; with no recover, a failed read is a panic. */
  function NewResponsePacket(b: Bytes): (r: Result<ResponsePacket>)
    ensures r.Err? && r.error.Panic?
  {
    var r := ReadPacket(b);
    if r.Err? then Err(Panic(r.error)) else r
  }

  /** The reads of newResponsePacket, before the panic. */
  function ReadPacket(b: Bytes): (r: Result<ResponsePacket>)
    ensures r.Err? && (r.error == Eof || r.error == UnexpectedEof)
  {
    var size :- ReadLong(b);
    var id :- ReadLong(size.rest);
    var typ :- ReadLong(id.rest);
    match ReadBytes(typ.rest, |b| - 2)
    case Err(e) => Err(e)
    case Ok(body) => assert false; Ok(ResponsePacket(size.value, id.value, typ.value, body.value))
  }

  /** No input decodes: the header reads fail on fewer than 12 bytes and the
      body read on any longer input, at end of input when the reads stop on
      a four-byte boundary and short of it otherwise. */
  lemma NeverSucceeds(b: Bytes)
    ensures NewResponsePacket(b) ==
              Err(Panic(if |b| <= 12 && |b| % 4 == 0 then Eof else UnexpectedEof))
  {
    if |b| >= 12 {
      assert b[4..][4..][4..] == b[12..];
    } else if |b| >= 8 {
      assert b[4..][4..] == b[8..];
    } else if |b| >= 4 {
      assert |b[4..]| == |b| - 4;
    }
  }

  /** In particular not the frames that every RCON request is sent as. */
  lemma RejectsEveryFrame(q: RconRequest, t: Bytes)
    ensures NewResponsePacket(RconFrame(q) + t) == Err(Panic(UnexpectedEof))
  {
    NeverSucceeds(RconFrame(q) + t);
  }
}
