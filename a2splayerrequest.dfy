/** The older player list request (a2sPlayerRequest.go): the request
    prefix, 'U', and the challenge taken from a raw challenge reply. */
module A2sPlayerRequest {
  import opened Errors
  import opened Wire
  import opened Comm
  import opened ChallengeResponse

  /** The request the older revision builds from the reply c; a reply
      shorter than four bytes makes GetChallange panic first. */
  function PlayerRequestBytes(c: Bytes): (r: Result<Bytes>)
    ensures r.Ok? <==> |c| >= 4
    ensures r.Err? ==> r.error == Panic(OutOfRange)
    ensures r.Ok? ==> |r.value| == 9 && r.value[..4] == RequestPrefix && r.value[4] == HPlayersInfoRequest
    ensures r.Ok? ==> r.value[5..] == c[|c| - 4..]
  {
    var challenge :- GetChallenge(c);
    var r := RequestPrefix + [HPlayersInfoRequest] + challenge;
    assert r[5..] == challenge;
    Ok(r)
  }

  /** A2SPlayerRequest.MarshalBinary. */
  method MarshalBinary(c: Bytes) returns (out: Result<Bytes>)
    ensures out == PlayerRequestBytes(c)
  {
    var buf := new Buffer();
    WriteRequestPrefix(buf);
    WriteByte(buf, HPlayersInfoRequest);
    var challenge := GetChallenge(c);
    if challenge.Err? {
      return Err(challenge.error);
    }
    buf.Write(challenge.value);
    assert buf.bytes == RequestPrefix + [HPlayersInfoRequest] + challenge.value;
    out := Ok(buf.bytes);
  }

  /** Cross-revision agreement: for the reply 'A' ++ LE32(x) the older
      request is byte for byte the current playersInfoRequest{x}. */
  lemma PlayerRequestOfReply(x: Int32)
    ensures PlayerRequestBytes([HPlayersInfoChallengeResponse] + EncodeLong(x)) == Ok(PlayersInfoRequestBytes(x))
  {
    GetChallengeOfReply(x);
    assert Wrap32(x) == x;
  }

  /** More generally, on any well-formed five-byte challenge reply the
      older request carries the challenge the current revision decodes. */
  lemma PlayerRequestAgreesWithCurrent(c: Bytes)
    requires |c| == 5 && UnmarshalChallenge(c).Ok?
    ensures PlayerRequestBytes(c) == Ok(PlayersInfoRequestBytes(UnmarshalChallenge(c).value))
  {
    GetChallengeAgreesWithUnmarshal(c);
    var x := UnmarshalChallenge(c).value;
    assert Wrap32(x) == x;
  }
}
