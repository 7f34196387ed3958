/** The older RCON request (rconRequest.go). Its struct has the fields of
    the current revision's request, so the same datatype models it. As
    written the file does not compile: constructPacket calls
    writeLilEndianInt32 and writeNullTerminator, which none of the files
    this model draws on defines. They are read as writeLong (the four little-endian
    bytes of an int32) and writeNull (one NUL byte). */
module LegacyRconRequest {
  import opened Wire
  import opened Comm

  // The SERVERDATA_* request types of the older revision.
  const ServerdataAuth: Int32 := 3
  const ServerdataExecCommand: Int32 := 2
  const ServerdataAuthResponse: Int32 := 2
  const ServerdataResponseValue: Int32 := 0

  /** The older constants are the current rconRequestType values. */
  lemma TypesAgree()
    ensures ServerdataAuth == RrtAuth && ServerdataExecCommand == RrtExecCmd
    ensures ServerdataAuthResponse == RrtAuthResp && ServerdataResponseValue == RrtRespValue
    ensures ServerdataExecCommand == ServerdataAuthResponse
  {
  }

  /** newrconRequest with the id drawn by the caller; int32(len(body) + 10)
      keeps the low 32 bits. */
  function NewRequest(reqType: Int32, body: Bytes, id: Int31): (r: RconRequest)
    ensures r.typ == reqType && r.body == body && r.id == id
    ensures |body| + 10 < 0x8000_0000 ==> r.size == |body| + 10
  {
    RconRequest(Wrap32(|body| + 10), id, reqType, body)
  }

  /** Both revisions build the same request from the same arguments. */
  lemma NewRequestAgreesWithCurrent(reqType: Int32, body: Bytes, id: Int31)
    ensures NewRequest(reqType, body, id) == NewRconRequest(reqType, body, id)
  {
  }

  /** constructPacket: size, id and type as little-endian int32s, the body,
      two NUL terminators. */
  method ConstructPacket(r: RconRequest) returns (out: Bytes)
    ensures out == RconFrame(r)
    ensures |out| == |r.body| + 14 && out[12..] == r.body + [0, 0]
  {
    var buf := new Buffer();
    WriteLong(buf, r.size);
    WriteLong(buf, r.id);
    WriteLong(buf, r.typ);
    buf.Write(r.body);
    WriteNull(buf);
    WriteNull(buf);
    out := buf.bytes;
  }

  /** The size field counts exactly the bytes after it. */
  lemma PacketLength(reqType: Int32, body: Bytes, id: Int31)
    requires |body| + 10 < 0x8000_0000
    ensures |RconFrame(NewRequest(reqType, body, id))| == NewRequest(reqType, body, id).size + 4
  {
  }
}
