/** The older challenge request (challengeRequest.go): the request prefix,
    'U', and the prefix again in place of a challenge. */
module ChallengeRequest {
  import opened Wire
  import opened Comm

  /** ChallengeRequest.MarshalBinary. */
  method MarshalBinary() returns (out: Bytes)
    ensures out == [0xFF, 0xFF, 0xFF, 0xFF, HPlayersInfoRequest, 0xFF, 0xFF, 0xFF, 0xFF]
  {
    var buf := new Buffer();
    WriteRequestPrefix(buf);
    WriteByte(buf, HPlayersInfoRequest);
    WriteRequestPrefix(buf);
    out := buf.bytes;
  }

  /** The request prefix is the little-endian encoding of -1 ... */
  lemma PrefixIsMinusOne()
    ensures EncodeLong(-1) == RequestPrefix
  {
    Pow256Widths();
    SignedOfEncodeSigned(-1, 4);
    EncodeSignedOfSigned(RequestPrefix);
    assert Signed(RequestPrefix) == -1 by {
      assert LeUint(RequestPrefix) == 0xFFFF_FFFF by {
        assert RequestPrefix[1..][1..][1..][1..] == [];
      }
    }
  }

  /** ... so the older challenge request is the current revision's
      playersInfoRequest{-1}: the challenge -1 asks the server for a
      challenge. */
  lemma ChallengeRequestIsMinusOneRequest()
    ensures [0xFF, 0xFF, 0xFF, 0xFF, HPlayersInfoRequest, 0xFF, 0xFF, 0xFF, 0xFF] == PlayersInfoRequestBytes(-1)
  {
    PrefixIsMinusOne();
  }
}
