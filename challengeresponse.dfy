/** The older challenge reply type (challengeResponse.go): the raw reply
    bytes, of which the challenge is the last four. */
module ChallengeResponse {
  import opened Errors
  import opened Wire
  import opened Comm

  /** GetChallange: the slice c[len(c)-4:]; a reply shorter than four
      bytes makes the slice expression panic. */
  function GetChallenge(c: Bytes): (r: Result<Bytes>)
    ensures r.Ok? <==> |c| >= 4
    ensures r.Err? ==> r.error == Panic(OutOfRange)
    ensures r.Ok? ==> |r.value| == 4 && c == c[..|c| - 4] + r.value
  {
    if |c| < 4 then Err(Panic(OutOfRange)) else Ok(c[|c| - 4..])
  }

  /** Nothing before the final four bytes affects the challenge. */
  lemma GetChallengeIgnoresPrefix(p: Bytes, c: Bytes)
    requires |c| >= 4
    ensures GetChallenge(p + c) == GetChallenge(c)
  {
    assert (p + c)[|p + c| - 4..] == c[|c| - 4..];
  }

  /** On an 'A' reply carrying LE32(x), the challenge is LE32(x). */
  lemma GetChallengeOfReply(x: Int32)
    ensures GetChallenge([HPlayersInfoChallengeResponse] + EncodeLong(x)) == Ok(EncodeLong(x))
  {
    GetChallengeIgnoresPrefix([HPlayersInfoChallengeResponse], EncodeLong(x));
    assert EncodeLong(x)[0..] == EncodeLong(x);
  }

  /** Agreement with the current revision: on a well-formed five-byte
      challenge reply, the bytes taken here are the little-endian encoding
      of the challenge that playersInfoChallengeResponse decodes. */
  lemma GetChallengeAgreesWithUnmarshal(c: Bytes)
    requires |c| == 5 && UnmarshalChallenge(c).Ok?
    ensures GetChallenge(c) == Ok(EncodeLong(UnmarshalChallenge(c).value))
  {
    assert c[1..5] == c[|c| - 4..];
    EncodeSignedOfSigned(c[1..5]);
  }
}
