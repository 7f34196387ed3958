/** The A2S query messages and the RCON frames of the current revision:
    the info request and response, the player list challenge exchange and
    response, and the RCON request and response frames. */
module Comm {
  import opened Errors
  import opened Wire

  // Message headers
  const HInfoRequest: byte := 0x54                 // 'T'
  const HInfoResponse: byte := 0x49                // 'I'
  const HPlayersInfoRequest: byte := 0x55          // 'U'
  const HPlayersInfoChallengeResponse: byte := 0x41  // 'A'
  const HPlayersInfoResponse: byte := 0x44         // 'D'

  // ---------------------------------------------------------------------
  // The closed enumerations of the info response. Each has an Invalid
  // value, the zero value of the Go type, which no decoder produces.

  datatype ServerType = StInvalid | StDedicated | StNonDedicated | StProxy
  datatype Environment = EInvalid | ELinux | EWindows | EMac
  datatype Visibility = VInvalid | VPublic | VPrivate
  datatype Vac = VacInvalid | VacUnsecured | VacSecure

  function DecodeServerType(b: byte): (r: Result<ServerType>)
    ensures r.Ok? <==> b == 0x64 || b == 0x6C || b == 0x70
    ensures r.Ok? ==> r.value != StInvalid
    ensures r.Err? ==> r.error == BadData
  {
    if b == 0x64 then Ok(StDedicated)          // 'd'
    else if b == 0x6C then Ok(StNonDedicated)  // 'l'
    else if b == 0x70 then Ok(StProxy)         // 'p'
    else Err(BadData)
  }

  function DecodeEnvironment(b: byte): (r: Result<Environment>)
    ensures r.Ok? <==> b == 0x6C || b == 0x77 || b == 0x6D || b == 0x6F
    ensures r.Ok? ==> r.value != EInvalid
    ensures r.Err? ==> r.error == BadData
  {
    if b == 0x6C then Ok(ELinux)                    // 'l'
    else if b == 0x77 then Ok(EWindows)             // 'w'
    else if b == 0x6D || b == 0x6F then Ok(EMac)    // 'm', 'o'
    else Err(BadData)
  }

  function DecodeVisibility(b: byte): (r: Result<Visibility>)
    ensures r.Ok? <==> b == 0 || b == 1
    ensures r.Ok? ==> r.value != VInvalid
    ensures r.Err? ==> r.error == BadData
  {
    if b == 0 then Ok(VPublic)
    else if b == 1 then Ok(VPrivate)
    else Err(BadData)
  }

  function DecodeVac(b: byte): (r: Result<Vac>)
    ensures r.Ok? <==> b == 0 || b == 1
    ensures r.Ok? ==> r.value != VacInvalid
    ensures r.Err? ==> r.error == BadData
  {
    if b == 0 then Ok(VacUnsecured)
    else if b == 1 then Ok(VacSecure)
    else Err(BadData)
  }

  /** The byte a server sends for each valid value ('m' for Mac). */
  function ServerTypeCode(st: ServerType): byte
    requires st != StInvalid
  {
    match st
    case StDedicated => 0x64
    case StNonDedicated => 0x6C
    case StProxy => 0x70
  }

  function EnvironmentCode(e: Environment): byte
    requires e != EInvalid
  {
    match e
    case ELinux => 0x6C
    case EWindows => 0x77
    case EMac => 0x6D
  }

  function VisibilityCode(v: Visibility): byte
    requires v != VInvalid
  {
    if v == VPublic then 0 else 1
  }

  function VacCode(v: Vac): byte
    requires v != VacInvalid
  {
    if v == VacUnsecured then 0 else 1
  }

  /** Every valid value is decoded from its code, and every accepted byte is
      the code of what it decodes to ('o' being the second code of Mac). */
  lemma EnumCodesRoundTrip(st: ServerType, e: Environment, v: Visibility, vac: Vac, b: byte)
    ensures st != StInvalid ==> DecodeServerType(ServerTypeCode(st)) == Ok(st)
    ensures e != EInvalid ==> DecodeEnvironment(EnvironmentCode(e)) == Ok(e)
    ensures v != VInvalid ==> DecodeVisibility(VisibilityCode(v)) == Ok(v)
    ensures vac != VacInvalid ==> DecodeVac(VacCode(vac)) == Ok(vac)
    ensures DecodeServerType(b).Ok? ==> ServerTypeCode(DecodeServerType(b).value) == b
    ensures DecodeEnvironment(b).Ok? ==>
              EnvironmentCode(DecodeEnvironment(b).value) == b || (b == 0x6F && DecodeEnvironment(b).value == EMac)
    ensures DecodeVisibility(b).Ok? ==> VisibilityCode(DecodeVisibility(b).value) == b
    ensures DecodeVac(b).Ok? ==> VacCode(DecodeVac(b).value) == b
  {
  }

  // ---------------------------------------------------------------------
  // Info request

  /** The text "Source Engine Query". */
  const SourceEngineQuery: Bytes :=
    [0x53, 0x6F, 0x75, 0x72, 0x63, 0x65, 0x20, 0x45, 0x6E, 0x67, 0x69, 0x6E, 0x65,
     0x20, 0x51, 0x75, 0x65, 0x72, 0x79]

  /** The bytes of infoRequest.marshalBinary. */
  function InfoRequestBytes(): (r: Bytes)
    ensures |r| == 25 && r[..4] == RequestPrefix && r[4] == HInfoRequest
    ensures r[5..24] == SourceEngineQuery && NulFree(r, 5, 24) && r[24] == 0
  {
    RequestPrefix + [HInfoRequest] + EncodeString(SourceEngineQuery)
  }

  method MarshalInfoRequest() returns (out: Bytes)
    ensures out == [0xFF, 0xFF, 0xFF, 0xFF, HInfoRequest] + SourceEngineQuery + [0]
    ensures out == InfoRequestBytes() && |out| == 25
  {
    var buf := new Buffer();
    WriteRequestPrefix(buf);
    WriteByte(buf, HInfoRequest);
    WriteString(buf, SourceEngineQuery);
    out := buf.bytes;
  }

  // ---------------------------------------------------------------------
  // Info response

  /** InfoResponse. Strings keep their terminating NUL, as readString does. */
  datatype InfoResponse = InfoResponse(
    protocol: int, name: Bytes, mapName: Bytes, folder: Bytes, game: Bytes,
    id: int, players: int, maxPlayers: int, bots: int,
    serverType: ServerType, environment: Environment, visibility: Visibility, vac: Vac,
    version: Bytes,
    port: int, steamId: Int64, sourceTvPort: int, sourceTvName: Bytes,
    keywords: Bytes, gameId: Int64)

  /** The zero value, as `var res InfoResponse` declares it. */
  const ZeroInfo := InfoResponse(0, [], [], [], [], 0, 0, 0, 0,
    StInvalid, EInvalid, VInvalid, VacInvalid, [], 0, 0, 0, [], [], 0)

  // Extra data flags
  const EdfPort: byte := 0x80
  const EdfSteamId: byte := 0x10
  const EdfSourceTv: byte := 0x40
  const EdfKeywords: byte := 0x20
  const EdfGameId: byte := 0x01

  /** edf&flag != 0 for a one-bit flag: the bit of edf that flag selects is
      set (HasFlagIsBitwiseAnd relates the two for every EDF byte). */
  function HasFlag(edf: byte, flag: byte): (r: bool)
    requires flag > 0
    ensures r ==> flag <= edf
    ensures flag as int <= edf as int < 2 * flag as int ==> r
  {
    SmallQuotient(edf as int, flag as int);
    (edf as int / flag as int) % 2 == 1
  }

  /** The quotients a flag test sees below the flag and up to twice it. */
  lemma SmallQuotient(u: int, f: int)
    requires 0 <= u && 0 < f
    ensures u < f ==> u / f == 0
    ensures f <= u < 2 * f ==> u / f == 1
  {
    var q := u / f;
    assert u == f * q + u % f && 0 <= u % f < f;
    if q >= 2 {
      assert f * q >= f * 2;
    }
  }

  lemma HasFlagIsBitwiseAnd(edf: byte)
    ensures HasFlag(edf, EdfPort) == ((edf as bv8) & (EdfPort as bv8) != 0)
    ensures HasFlag(edf, EdfSteamId) == ((edf as bv8) & (EdfSteamId as bv8) != 0)
    ensures HasFlag(edf, EdfSourceTv) == ((edf as bv8) & (EdfSourceTv as bv8) != 0)
    ensures HasFlag(edf, EdfKeywords) == ((edf as bv8) & (EdfKeywords as bv8) != 0)
    ensures HasFlag(edf, EdfGameId) == ((edf as bv8) & (EdfGameId as bv8) != 0)
  {
  }

  /** Name, Map, Folder and Game, the four strings after the protocol byte. */
  datatype Names = Names(name: Bytes, mapName: Bytes, folder: Bytes, game: Bytes)

  predicate ValidNames(n: Names)
  {
    IsCString(n.name) && IsCString(n.mapName) && IsCString(n.folder) && IsCString(n.game)
  }

  function ReadNames(s: Bytes): (r: Result<Read<Names>>)
    ensures r.Ok? ==> ValidNames(r.value.value) && |r.value.rest| < |s|
    ensures r.Err? ==> r.error == Eof
  {
    var name :- ReadString(s);
    var mapName :- ReadString(name.rest);
    var folder :- ReadString(mapName.rest);
    var game :- ReadString(folder.rest);
    Ok(Read(Names(name.value, mapName.value, folder.value, game.value), game.rest))
  }

  /** ID as readShort gives it, then Players, MaxPlayers and Bots. */
  datatype Counts = Counts(appId: Int16, players: byte, maxPlayers: byte, bots: byte)

  /** Five fixed bytes. The short fails with io.ErrUnexpectedEOF when only one
      of its bytes is left; every other shortfall is io.EOF. */
  function ReadCounts(s: Bytes): (r: Result<Read<Counts>>)
    ensures r.Ok? <==> 5 <= |s|
    ensures r.Ok? ==> r.value == Read(Counts(DecodeShort(s[..2]), s[2], s[3], s[4]), s[5..])
    ensures r.Err? ==> r.error == (if |s| == 1 then UnexpectedEof else Eof)
  {
    var appId :- ReadShort(s);
    var players :- ReadByte(appId.rest);
    var maxPlayers :- ReadByte(players.rest);
    var bots :- ReadByte(maxPlayers.rest);
    assert s[2..][1..][1..][1..] == s[5..];
    Ok(Read(Counts(appId.value, players.value, maxPlayers.value, bots.value), bots.rest))
  }

  /** ServerType, Environment, Visibility and VAC. */
  datatype Kinds = Kinds(serverType: ServerType, environment: Environment,
                         visibility: Visibility, vac: Vac)

  predicate ValidKinds(k: Kinds)
  {
    k.serverType != StInvalid && k.environment != EInvalid
    && k.visibility != VInvalid && k.vac != VacInvalid
  }

  /** Four one-byte reads, each decoded before the next is read: a missing
      byte is io.EOF, an unknown code errBadData. */
  function ReadKinds(s: Bytes): (r: Result<Read<Kinds>>)
    ensures r.Ok? <==>
              4 <= |s| && DecodeServerType(s[0]).Ok? && DecodeEnvironment(s[1]).Ok?
              && DecodeVisibility(s[2]).Ok? && DecodeVac(s[3]).Ok?
    ensures r.Ok? ==>
              r.value == Read(Kinds(DecodeServerType(s[0]).value, DecodeEnvironment(s[1]).value,
                                    DecodeVisibility(s[2]).value, DecodeVac(s[3]).value), s[4..])
              && ValidKinds(r.value.value)
    ensures r.Err? ==> r.error == Eof || r.error == BadData
  {
    var st :- ReadBytes(s, 1);
    var serverType :- DecodeServerType(st.value[0]);
    var env :- ReadBytes(st.rest, 1);
    var environment :- DecodeEnvironment(env.value[0]);
    var vis :- ReadBytes(env.rest, 1);
    var visibility :- DecodeVisibility(vis.value[0]);
    var vc :- ReadBytes(vis.rest, 1);
    var vac :- DecodeVac(vc.value[0]);
    assert s[1..][1..][1..][1..] == s[4..];
    Ok(Read(Kinds(serverType, environment, visibility, vac), vc.rest))
  }

  /** The fields every info response carries, from the header to Version. */
  datatype Mandatory = Mandatory(protocol: byte, names: Names, counts: Counts, kinds: Kinds,
                                 version: Bytes)

  predicate ValidMandatory(m: Mandatory)
  {
    ValidNames(m.names) && ValidKinds(m.kinds) && IsCString(m.version)
  }

  /** The header check and the mandatory fields, read in wire order. */
  function ParseMandatory(data: Bytes): (r: Result<Read<Mandatory>>)
    ensures r.Ok? ==> |r.value.rest| < |data| && ValidMandatory(r.value.value)
    ensures r.Ok? ==> |data| >= 2 && data[0] == HInfoResponse && r.value.value.protocol == data[1]
    ensures |data| == 0 ==> r == Err(Eof)
    ensures |data| > 0 && data[0] != HInfoResponse ==> r == Err(BadData)
  {
    var h :- ReadByte(data);
    if h.value != HInfoResponse then Err(BadData)
    else
      var protocol :- ReadByte(h.rest);
      var names :- ReadNames(protocol.rest);
      var counts :- ReadCounts(names.rest);
      var kinds :- ReadKinds(counts.rest);
      var version :- ReadString(kinds.rest);
      Ok(Read(Mandatory(protocol.value, names.value, counts.value, kinds.value, version.value),
              version.rest))
  }

  /** The receiver after the mandatory fields are assigned; toInt keeps each
      integer's value (Wire.ToIntPreservesValue), so ID is the sign-extended app id. */
  function WithMandatory(r: InfoResponse, m: Mandatory): InfoResponse
  {
    r.(protocol := m.protocol as int, name := m.names.name, mapName := m.names.mapName,
       folder := m.names.folder, game := m.names.game, id := m.counts.appId,
       players := m.counts.players as int, maxPlayers := m.counts.maxPlayers as int,
       bots := m.counts.bots as int, serverType := m.kinds.serverType,
       environment := m.kinds.environment, visibility := m.kinds.visibility,
       vac := m.kinds.vac, version := m.version)
  }

  /** The optional fields of an info response, with the EDF byte that says which are present. */
  datatype Extra = Extra(edf: byte, port: int, steamId: Int64, sourceTvPort: int,
                         sourceTvName: Bytes, keywords: Bytes, gameId: Int64)

  /** The EDF rules stated on their own: the fields whose flag is set take
      the given values, ID becomes the low 24 bits of GameID when GameID is
      present, and everything else keeps b's value. */
  function ApplyExtra(b: InfoResponse, e: Extra): (r: InfoResponse)
    ensures e.edf == 0 ==> r == b
    ensures r.(port := b.port, steamId := b.steamId, sourceTvPort := b.sourceTvPort,
               sourceTvName := b.sourceTvName, keywords := b.keywords, gameId := b.gameId, id := b.id) == b
    ensures HasFlag(e.edf, EdfGameId) ==> 0 <= r.id < 0x100_0000
  {
    var f := e.edf;
    b.(port := if HasFlag(f, EdfPort) then e.port else b.port,
       steamId := if HasFlag(f, EdfSteamId) then e.steamId else b.steamId,
       sourceTvPort := if HasFlag(f, EdfSourceTv) then e.sourceTvPort else b.sourceTvPort,
       sourceTvName := if HasFlag(f, EdfSourceTv) then e.sourceTvName else b.sourceTvName,
       keywords := if HasFlag(f, EdfKeywords) then e.keywords else b.keywords,
       gameId := if HasFlag(f, EdfGameId) then e.gameId else b.gameId,
       id := if HasFlag(f, EdfGameId) then e.gameId % 0x100_0000 else b.id)
  }

  /** The optional fields as a response holds them. */
  function ExtraOf(edf: byte, v: InfoResponse): Extra
  {
    Extra(edf, v.port, v.steamId, v.sourceTvPort, v.sourceTvName, v.keywords, v.gameId)
  }

  function ExtraPort(r: InfoResponse, edf: byte, s: Bytes): (x: Result<Read<InfoResponse>>)
    ensures !HasFlag(edf, EdfPort) ==> x == Ok(Read(r, s))
    ensures x.Ok? ==> x.value.value == r.(port := x.value.value.port)
  {
    if !HasFlag(edf, EdfPort) then Ok(Read(r, s))
    else
      var v :- ReadShort(s);
      Ok(Read(r.(port := v.value), v.rest))
  }

  function ExtraSteamId(r: InfoResponse, edf: byte, s: Bytes): (x: Result<Read<InfoResponse>>)
    ensures !HasFlag(edf, EdfSteamId) ==> x == Ok(Read(r, s))
    ensures x.Ok? ==> x.value.value == r.(steamId := x.value.value.steamId)
  {
    if !HasFlag(edf, EdfSteamId) then Ok(Read(r, s))
    else
      var v :- ReadLongLong(s);
      Ok(Read(r.(steamId := v.value), v.rest))
  }

  function ExtraSourceTv(r: InfoResponse, edf: byte, s: Bytes): (x: Result<Read<InfoResponse>>)
    ensures !HasFlag(edf, EdfSourceTv) ==> x == Ok(Read(r, s))
    ensures x.Ok? ==> x.value.value == r.(sourceTvPort := x.value.value.sourceTvPort,
                                          sourceTvName := x.value.value.sourceTvName)
  {
    if !HasFlag(edf, EdfSourceTv) then Ok(Read(r, s))
    else
      var p :- ReadShort(s);
      var n :- ReadString(p.rest);
      Ok(Read(r.(sourceTvPort := p.value, sourceTvName := n.value), n.rest))
  }

  function ExtraKeywords(r: InfoResponse, edf: byte, s: Bytes): (x: Result<Read<InfoResponse>>)
    ensures !HasFlag(edf, EdfKeywords) ==> x == Ok(Read(r, s))
    ensures x.Ok? ==> x.value.value == r.(keywords := x.value.value.keywords)
  {
    if !HasFlag(edf, EdfKeywords) then Ok(Read(r, s))
    else
      var k :- ReadString(s);
      Ok(Read(r.(keywords := k.value), k.rest))
  }

  /** GameID & 0xFFFFFF on the two's complement int64 is its low 24 bits,
      which is the Euclidean remainder modulo 2^24. */
  function ExtraGameId(r: InfoResponse, edf: byte, s: Bytes): (x: Result<Read<InfoResponse>>)
    ensures !HasFlag(edf, EdfGameId) ==> x == Ok(Read(r, s))
    ensures x.Ok? && HasFlag(edf, EdfGameId) ==>
              x.value.value == r.(gameId := x.value.value.gameId, id := x.value.value.gameId % 0x100_0000)
  {
    if !HasFlag(edf, EdfGameId) then Ok(Read(r, s))
    else
      var g :- ReadLongLong(s);
      Ok(Read(r.(gameId := g.value, id := g.value % 0x100_0000), g.rest))
  }

  /** The optional fields after the EDF byte, each one present only when its
      flag is set, in the fixed order Port, SteamID, SourceTV, Keywords, GameID.
      Only the flagged fields change, and ID follows GameID when it is present. */
  function ParseExtra(r: InfoResponse, edf: byte, s: Bytes): (x: Result<InfoResponse>)
    ensures x.Ok? ==> x.value == ApplyExtra(r, ExtraOf(edf, x.value))
  {
    var a :- ExtraPort(r, edf, s);
    var b :- ExtraSteamId(a.value, edf, a.rest);
    var c :- ExtraSourceTv(b.value, edf, b.rest);
    var d :- ExtraKeywords(c.value, edf, c.rest);
    var e :- ExtraGameId(d.value, edf, d.rest);
    Ok(e.value)
  }

  /** InfoResponse.unmarshalBinary on receiver r. Every panic is recovered,
      so every failure is an error result. */
  function UnmarshalInfo(r: InfoResponse, data: Bytes): (x: Result<InfoResponse>)
    ensures |data| == 0 ==> x == Err(Eof)
    ensures |data| > 0 && data[0] != HInfoResponse ==> x == Err(BadData)
    ensures x.Ok? ==> ParseMandatory(data).Ok?
  {
    var m :- ParseMandatory(data);
    var r1 := WithMandatory(r, m.value);
    if |m.rest| < 1 then Ok(r1)
    else
      var edf :- ReadByte(m.rest);
      ParseExtra(r1, edf.value, edf.rest)
  }

  /** With no byte after Version there is no EDF byte: the parse succeeds and
      every optional field keeps the receiver's value (zero for a fresh one). */
  lemma UnmarshalInfoWithoutExtra(r: InfoResponse, data: Bytes)
    requires ParseMandatory(data).Ok? && ParseMandatory(data).value.rest == []
    ensures UnmarshalInfo(r, data) == Ok(WithMandatory(r, ParseMandatory(data).value.value))
    ensures var x := UnmarshalInfo(r, data).value;
      x.port == r.port && x.steamId == r.steamId && x.sourceTvPort == r.sourceTvPort
      && x.sourceTvName == r.sourceTvName && x.keywords == r.keywords && x.gameId == r.gameId
  {
  }

  /** A successful parse assigns every mandatory field from the wire and
      then applies the EDF rules: a field whose flag is clear keeps its
      value, and ID is the low 24 bits of GameID when GameID is present. */
  lemma UnmarshalInfoFields(r: InfoResponse, data: Bytes)
    requires UnmarshalInfo(r, data).Ok?
    ensures var m := ParseMandatory(data).value;
      var x := UnmarshalInfo(r, data).value;
      m.rest != [] ==> x == ApplyExtra(WithMandatory(r, m.value), ExtraOf(m.rest[0], x))
    ensures var m := ParseMandatory(data).value;
      var x := UnmarshalInfo(r, data).value;
      m.rest != [] && HasFlag(m.rest[0], EdfGameId) ==> x.id == x.gameId % 0x100_0000 && 0 <= x.id < 0x100_0000
  {
  }

  /** Reading the four strings never looks past the last NUL. */
  lemma ReadNamesExtend(s: Bytes, t: Bytes)
    requires ReadNames(s).Ok?
    ensures ReadNames(s + t) == Ok(Read(ReadNames(s).value.value, ReadNames(s).value.rest + t))
  {
    var name := ReadString(s).value;
    ReadStringExtend(s, t);
    var mapName := ReadString(name.rest).value;
    ReadStringExtend(name.rest, t);
    var folder := ReadString(mapName.rest).value;
    ReadStringExtend(mapName.rest, t);
    ReadStringExtend(folder.rest, t);
  }

  lemma ReadCountsExtend(s: Bytes, t: Bytes)
    requires ReadCounts(s).Ok?
    ensures ReadCounts(s + t) == Ok(Read(ReadCounts(s).value.value, ReadCounts(s).value.rest + t))
  {
    assert (s + t)[..2] == s[..2] && (s + t)[5..] == s[5..] + t;
  }

  lemma ReadKindsExtend(s: Bytes, t: Bytes)
    requires ReadKinds(s).Ok?
    ensures ReadKinds(s + t) == Ok(Read(ReadKinds(s).value.value, ReadKinds(s).value.rest + t))
  {
    assert (s + t)[..4] == s[..4] && (s + t)[4..] == s[4..] + t;
  }

  /** The mandatory fields are read the same whatever follows them. */
  lemma ParseMandatoryExtend(data: Bytes, t: Bytes)
    requires ParseMandatory(data).Ok?
    ensures ParseMandatory(data + t)
            == Ok(Read(ParseMandatory(data).value.value, ParseMandatory(data).value.rest + t))
  {
    var h := ReadByte(data).value;
    ReadByteExtend(data, t);
    var protocol := ReadByte(h.rest).value;
    ReadByteExtend(h.rest, t);
    var names := ReadNames(protocol.rest).value;
    ReadNamesExtend(protocol.rest, t);
    var counts := ReadCounts(names.rest).value;
    ReadCountsExtend(names.rest, t);
    var kinds := ReadKinds(counts.rest).value;
    ReadKindsExtend(counts.rest, t);
    ReadStringExtend(kinds.rest, t);
  }

  /** Truncation anywhere before the end of Version is an error, never a
      response with zero fields. */
  lemma UnmarshalInfoTruncated(r: InfoResponse, data: Bytes, k: nat)
    requires ParseMandatory(data).Ok? && k < |data| - |ParseMandatory(data).value.rest|
    ensures UnmarshalInfo(r, data[..k]).Err?
  {
    ParseMandatoryTruncated(data, k);
  }

  lemma ParseMandatoryTruncated(data: Bytes, k: nat)
    requires ParseMandatory(data).Ok? && k < |data| - |ParseMandatory(data).value.rest|
    ensures ParseMandatory(data[..k]).Err?
  {
    var p := data[..k];
    var q := data[k..];
    assert p + q == data;
    if ParseMandatory(p).Ok? {
      ParseMandatoryExtend(p, q);
      assert false;
    }
  }

  // Encodings of info responses, the partner of the decoder.

  function EncodeNames(n: Names): Bytes
  {
    n.name + (n.mapName + (n.folder + n.game))
  }

  function EncodeCounts(c: Counts): (out: Bytes)
    ensures |out| == 5
  {
    EncodeShort(c.appId) + [c.players, c.maxPlayers, c.bots]
  }

  function EncodeKinds(k: Kinds): (out: Bytes)
    requires ValidKinds(k)
    ensures |out| == 4
  {
    [ServerTypeCode(k.serverType), EnvironmentCode(k.environment),
     VisibilityCode(k.visibility), VacCode(k.vac)]
  }

  function EncodeMandatory(m: Mandatory): Bytes
    requires ValidMandatory(m)
  {
    [HInfoResponse] + ([m.protocol]
    + (EncodeNames(m.names) + (EncodeCounts(m.counts) + (EncodeKinds(m.kinds) + m.version))))
  }

  predicate ValidExtra(e: Extra)
  {
    -0x8000 <= e.port < 0x8000 && -0x8000 <= e.sourceTvPort < 0x8000
    && IsCString(e.sourceTvName) && IsCString(e.keywords)
  }

  function PortPart(e: Extra): Bytes
    requires ValidExtra(e)
  {
    if HasFlag(e.edf, EdfPort) then EncodeShort(e.port) else []
  }

  function SteamIdPart(e: Extra): Bytes
  {
    if HasFlag(e.edf, EdfSteamId) then EncodeLongLong(e.steamId) else []
  }

  function SourceTvPart(e: Extra): Bytes
    requires ValidExtra(e)
  {
    if HasFlag(e.edf, EdfSourceTv) then EncodeShort(e.sourceTvPort) + e.sourceTvName else []
  }

  function KeywordsPart(e: Extra): Bytes
  {
    if HasFlag(e.edf, EdfKeywords) then e.keywords else []
  }

  function GameIdPart(e: Extra): Bytes
  {
    if HasFlag(e.edf, EdfGameId) then EncodeLongLong(e.gameId) else []
  }

  /** The bytes after the EDF byte. */
  function EncodeExtraFields(e: Extra): Bytes
    requires ValidExtra(e)
  {
    PortPart(e) + (SteamIdPart(e) + (SourceTvPart(e) + (KeywordsPart(e) + GameIdPart(e))))
  }

  function EncodeExtra(e: Extra): Bytes
    requires ValidExtra(e)
  {
    [e.edf] + EncodeExtraFields(e)
  }

  /** What the decoder should make of r and an encoded response. */
  function ExpectedInfo(r: InfoResponse, m: Mandatory, x: Option<Extra>): InfoResponse
  {
    match x
    case None => WithMandatory(r, m)
    case Some(e) => ApplyExtra(WithMandatory(r, m), e)
  }

  lemma ReadNamesOf(n: Names, t: Bytes)
    requires ValidNames(n)
    ensures ReadNames(EncodeNames(n) + t) == Ok(Read(n, t))
  {
    Nest4(n.name, n.mapName, n.folder, n.game, t);
    ReadStringOf(n.name, n.mapName + (n.folder + (n.game + t)));
    ReadStringOf(n.mapName, n.folder + (n.game + t));
    ReadStringOf(n.folder, n.game + t);
    ReadStringOf(n.game, t);
  }

  lemma ReadCountsOf(c: Counts, t: Bytes)
    ensures ReadCounts(EncodeCounts(c) + t) == Ok(Read(c, t))
  {
    var tail := [c.players, c.maxPlayers, c.bots];
    SeqAssoc(EncodeShort(c.appId), tail, t);
    ReadShortOfEncodeShort(c.appId, tail + t);
    assert tail + t == [c.players] + ([c.maxPlayers] + ([c.bots] + t));
    ReadByteOf(c.players, [c.maxPlayers] + ([c.bots] + t));
    ReadByteOf(c.maxPlayers, [c.bots] + t);
    ReadByteOf(c.bots, t);
  }

  lemma ReadKindsOf(k: Kinds, t: Bytes)
    requires ValidKinds(k)
    ensures ReadKinds(EncodeKinds(k) + t) == Ok(Read(k, t))
  {
    EnumCodesRoundTrip(k.serverType, k.environment, k.visibility, k.vac, 0);
    var s := EncodeKinds(k) + t;
    assert s[4..] == t;
  }

  lemma ParseMandatoryOfEncoding(m: Mandatory, t: Bytes)
    requires ValidMandatory(m)
    ensures ParseMandatory(EncodeMandatory(m) + t) == Ok(Read(m, t))
  {
    var tN := EncodeNames(m.names);
    var tC := EncodeCounts(m.counts);
    var tK := EncodeKinds(m.kinds);
    var v := m.version;
    Nest5([HInfoResponse], [m.protocol], tN, tC, tK + v, t);
    SeqAssoc(tK, v, t);
    ReadByteOf(HInfoResponse, [m.protocol] + (tN + (tC + (tK + (v + t)))));
    ReadByteOf(m.protocol, tN + (tC + (tK + (v + t))));
    ReadNamesOf(m.names, tC + (tK + (v + t)));
    ReadCountsOf(m.counts, tK + (v + t));
    ReadKindsOf(m.kinds, v + t);
    ReadStringOf(v, t);
  }

  // The EDF rules one field at a time.

  function WithPort(r: InfoResponse, e: Extra): InfoResponse
  {
    r.(port := if HasFlag(e.edf, EdfPort) then e.port else r.port)
  }

  function WithSteamId(r: InfoResponse, e: Extra): InfoResponse
  {
    r.(steamId := if HasFlag(e.edf, EdfSteamId) then e.steamId else r.steamId)
  }

  function WithSourceTv(r: InfoResponse, e: Extra): InfoResponse
  {
    r.(sourceTvPort := if HasFlag(e.edf, EdfSourceTv) then e.sourceTvPort else r.sourceTvPort,
       sourceTvName := if HasFlag(e.edf, EdfSourceTv) then e.sourceTvName else r.sourceTvName)
  }

  function WithKeywords(r: InfoResponse, e: Extra): InfoResponse
  {
    r.(keywords := if HasFlag(e.edf, EdfKeywords) then e.keywords else r.keywords)
  }

  function WithGameId(r: InfoResponse, e: Extra): InfoResponse
  {
    r.(gameId := if HasFlag(e.edf, EdfGameId) then e.gameId else r.gameId,
       id := if HasFlag(e.edf, EdfGameId) then e.gameId % 0x100_0000 else r.id)
  }

  lemma ApplyExtraInSteps(b: InfoResponse, e: Extra)
    ensures ApplyExtra(b, e) == WithGameId(WithKeywords(WithSourceTv(WithSteamId(WithPort(b, e), e), e), e), e)
  {
  }

  lemma ExtraPortOf(r: InfoResponse, e: Extra, t: Bytes)
    requires ValidExtra(e)
    ensures ExtraPort(r, e.edf, PortPart(e) + t) == Ok(Read(WithPort(r, e), t))
  {
    if HasFlag(e.edf, EdfPort) {
      ReadShortOfEncodeShort(e.port, t);
    } else {
      assert PortPart(e) + t == t;
    }
  }

  lemma ExtraSteamIdOf(r: InfoResponse, e: Extra, t: Bytes)
    ensures ExtraSteamId(r, e.edf, SteamIdPart(e) + t) == Ok(Read(WithSteamId(r, e), t))
  {
    if HasFlag(e.edf, EdfSteamId) {
      ReadLongLongOfEncodeLongLong(e.steamId, t);
    } else {
      assert SteamIdPart(e) + t == t;
    }
  }

  lemma ExtraSourceTvOf(r: InfoResponse, e: Extra, t: Bytes)
    requires ValidExtra(e)
    ensures ExtraSourceTv(r, e.edf, SourceTvPart(e) + t) == Ok(Read(WithSourceTv(r, e), t))
  {
    if HasFlag(e.edf, EdfSourceTv) {
      SeqAssoc(EncodeShort(e.sourceTvPort), e.sourceTvName, t);
      ReadShortOfEncodeShort(e.sourceTvPort, e.sourceTvName + t);
      ReadStringOf(e.sourceTvName, t);
    } else {
      assert SourceTvPart(e) + t == t;
    }
  }

  lemma ExtraKeywordsOf(r: InfoResponse, e: Extra, t: Bytes)
    requires IsCString(e.keywords)
    ensures ExtraKeywords(r, e.edf, KeywordsPart(e) + t) == Ok(Read(WithKeywords(r, e), t))
  {
    if HasFlag(e.edf, EdfKeywords) {
      ReadStringOf(e.keywords, t);
    } else {
      assert KeywordsPart(e) + t == t;
    }
  }

  lemma ExtraGameIdOf(r: InfoResponse, e: Extra, t: Bytes)
    ensures ExtraGameId(r, e.edf, GameIdPart(e) + t) == Ok(Read(WithGameId(r, e), t))
  {
    if HasFlag(e.edf, EdfGameId) {
      ReadLongLongOfEncodeLongLong(e.gameId, t);
    } else {
      assert GameIdPart(e) + t == t;
    }
  }

  /** Decoding the encoded optional fields applies exactly the EDF rules. */
  lemma ParseExtraOfEncoding(b: InfoResponse, e: Extra, t: Bytes)
    requires ValidExtra(e)
    ensures ParseExtra(b, e.edf, EncodeExtraFields(e) + t) == Ok(ApplyExtra(b, e))
  {
    var b1 := WithPort(b, e);
    var b2 := WithSteamId(b1, e);
    var b3 := WithSourceTv(b2, e);
    var b4 := WithKeywords(b3, e);
    var t4 := GameIdPart(e) + t;
    var t3 := KeywordsPart(e) + t4;
    var t2 := SourceTvPart(e) + t3;
    var t1 := SteamIdPart(e) + t2;
    Nest5(PortPart(e), SteamIdPart(e), SourceTvPart(e), KeywordsPart(e), GameIdPart(e), t);
    ExtraPortOf(b, e, t1);
    ExtraSteamIdOf(b1, e, t2);
    ExtraSourceTvOf(b2, e, t3);
    ExtraKeywordsOf(b3, e, t4);
    ExtraGameIdOf(b4, e, t);
    ApplyExtraInSteps(b, e);
  }

  /** Round trip: the decoder recovers every field the server encoded, and
      keeps the receiver's value exactly for the fields the EDF leaves out. */
  lemma UnmarshalInfoOfEncoding(r: InfoResponse, m: Mandatory, x: Option<Extra>)
    requires ValidMandatory(m) && (x.Some? ==> ValidExtra(x.value))
    ensures UnmarshalInfo(r, EncodeMandatory(m) + (if x.Some? then EncodeExtra(x.value) else []))
            == Ok(ExpectedInfo(r, m, x))
  {
    var tail := if x.Some? then EncodeExtra(x.value) else [];
    ParseMandatoryOfEncoding(m, tail);
    if x.Some? {
      var e := x.value;
      ReadByteOf(e.edf, EncodeExtraFields(e));
      assert EncodeExtraFields(e) + [] == EncodeExtraFields(e);
      ParseExtraOfEncoding(WithMandatory(r, m), e, []);
    }
  }

  // ---------------------------------------------------------------------
  // Player list: the challenge exchange

  /** The bytes of playersInfoRequest{challenge}.marshalBinary; int32() keeps
      the low 32 bits of the Go int. */
  function PlayersInfoRequestBytes(challenge: int): (r: Bytes)
    ensures |r| == 9 && r[..5] == RequestPrefix + [HPlayersInfoRequest]
    ensures DecodeLong(r[5..]) == Wrap32(challenge)
    ensures -0x8000_0000 <= challenge < 0x8000_0000 ==> DecodeLong(r[5..]) == challenge
  {
    DecodeLongOfEncodeLong(Wrap32(challenge));
    RequestPrefix + [HPlayersInfoRequest] + EncodeLong(Wrap32(challenge))
  }

  method MarshalPlayersInfoRequest(challenge: int) returns (out: Bytes)
    ensures out == [0xFF, 0xFF, 0xFF, 0xFF, HPlayersInfoRequest] + EncodeLong(Wrap32(challenge))
    ensures out == PlayersInfoRequestBytes(challenge) && |out| == 9
  {
    var buf := new Buffer();
    WriteRequestPrefix(buf);
    WriteByte(buf, HPlayersInfoRequest);
    WriteLong(buf, Wrap32(challenge));
    out := buf.bytes;
  }

  /** isPlayersInfoChallengeResponse: b[0] == 'A'; an empty reply panics
      (index out of range) and the caller does not recover. */
  function IsPlayersInfoChallengeResponse(b: Bytes): (r: Result<bool>)
    ensures r.Ok? <==> |b| > 0
    ensures r.Ok? ==> (r.value <==> b[0] == HPlayersInfoChallengeResponse)
    ensures r.Err? ==> r.error == Panic(OutOfRange)
  {
    if |b| == 0 then Err(Panic(OutOfRange)) else Ok(b[0] == HPlayersInfoChallengeResponse)
  }

  /** playersInfoChallengeResponse.unmarshalBinary: header 'A', then the
      challenge as an int32. */
  function UnmarshalChallenge(data: Bytes): (r: Result<int>)
    ensures |data| == 0 ==> r == Err(Eof)
    ensures |data| > 0 && data[0] != HPlayersInfoChallengeResponse ==> r == Err(BadData)
    ensures r.Ok? <==> |data| >= 5 && data[0] == HPlayersInfoChallengeResponse
    ensures r.Ok? ==> r.value == Signed(data[1..5]) && -0x8000_0000 <= r.value < 0x8000_0000
  {
    var h :- ReadByte(data);
    if h.value != HPlayersInfoChallengeResponse then Err(BadData)
    else
      var c :- ReadLong(h.rest);
      assert data[1..][..4] == data[1..5];
      ToInt(DInt32(c.value))
  }

  /** Round trip: 'A' followed by LE32(x) gives back x, whatever follows. */
  lemma UnmarshalChallengeOfEncoding(x: Int32, t: Bytes)
    ensures UnmarshalChallenge([HPlayersInfoChallengeResponse] + EncodeLong(x) + t) == Ok(x)
  {
    SeqAssoc([HPlayersInfoChallengeResponse], EncodeLong(x), t);
    ReadByteOf(HPlayersInfoChallengeResponse, EncodeLong(x) + t);
    ReadLongOfWriteLong(x, t);
  }

  /** The challenge the second request carries is the one the reply held:
      the request's last four bytes are the reply's bytes 1..4. */
  lemma ChallengeEchoed(reply: Bytes)
    requires UnmarshalChallenge(reply).Ok?
    ensures PlayersInfoRequestBytes(UnmarshalChallenge(reply).value)[5..] == reply[1..5]
  {
    EncodeSignedOfSigned(reply[1..5]);
  }

  // ---------------------------------------------------------------------
  // Player list: the response

  /** Player; Duration is the raw bit pattern of the float32 on the wire. */
  datatype Player = Player(name: Bytes, score: Int32, duration: Uint32)

  /** One player entry: the chunk index (read and discarded), then name,
      score and duration. */
  function ReadPlayer(s: Bytes): (r: Result<Read<Player>>)
    ensures r.Ok? ==> IsCString(r.value.value.name) && |r.value.rest| < |s|
  {
    var index :- ReadByte(s);
    var name :- ReadString(index.rest);
    var score :- ReadLong(name.rest);
    var duration :- ReadFloat(score.rest);
    Ok(Read(Player(name.value, score.value, duration.value), duration.rest))
  }

  /** The receiver's player list and the error, if any, after reading n
      more entries; on an error the entries read so far stay appended. */
  datatype PlayerList = PlayerList(players: seq<Player>, err: Option<Error>)

  function ReadPlayers(acc: seq<Player>, s: Bytes, n: nat): (r: PlayerList)
    ensures |acc| <= |r.players| <= |acc| + n && r.players[..|acc|] == acc
    ensures r.err.None? <==> |r.players| == |acc| + n
    decreases n
  {
    if n == 0 then PlayerList(acc, None)
    else
      match ReadPlayer(s)
      case Err(e) => PlayerList(acc, Some(e))
      case Ok(p) =>
        var r := ReadPlayers(acc + [p.value], p.rest, n - 1);
        assert r.players[..|acc|] == r.players[..|acc| + 1][..|acc|];
        r
  }

  /** PlayersInfoResponse.unmarshalBinary on a receiver holding prior,
      as a function of the input. */
  function DecodePlayersInfo(prior: seq<Player>, data: Bytes): (r: PlayerList)
    ensures |data| == 0 ==> r == PlayerList(prior, Some(Eof))
    ensures |data| > 0 && data[0] != HPlayersInfoResponse ==> r == PlayerList(prior, Some(BadData))
    ensures |data| == 1 && data[0] == HPlayersInfoResponse ==> r == PlayerList(prior, Some(Eof))
    ensures |data| >= 2 && data[0] == HPlayersInfoResponse ==>
              (r.err.None? <==> |r.players| == |prior| + data[1] as int)
    ensures |r.players| >= |prior| && r.players[..|prior|] == prior
  {
    var h := ReadByte(data);
    if h.Err? then PlayerList(prior, Some(h.error))
    else if h.value.value != HPlayersInfoResponse then PlayerList(prior, Some(BadData))
    else
      var c := ReadByte(h.value.rest);
      if c.Err? then PlayerList(prior, Some(c.error))
      else ReadPlayers(prior, c.value.rest, c.value.value as int)
  }

  class PlayersInfoResponse {
    var players: seq<Player>

    constructor ()
      ensures players == []
    {
      players := [];
    }

    method UnmarshalBinary(data: Bytes) returns (err: Option<Error>)
      modifies this
      ensures PlayerList(players, err) == DecodePlayersInfo(old(players), data)
    {
      var h := ReadByte(data);
      if h.Err? {
        return Some(h.error);
      }
      if h.value.value != HPlayersInfoResponse {
        return Some(BadData);
      }
      var c := ReadByte(h.value.rest);
      if c.Err? {
        return Some(c.error);
      }
      var count: nat := c.value.value as int;  // toInt(readByte(buf))
      var buf := c.value.rest;
      DecodePlayersInfoHeader(players, data);
      ghost var target := DecodePlayersInfo(old(players), data);
      ghost var left: nat := count;
      var i := 0;
      while i < count
        invariant i + left == count
        invariant Completes(players, buf, left, target)
      {
        var p, left' := ReadNextPlayer(buf, players, left, target);
        if p.Err? {
          return Some(p.error);
        }
        players := players + [p.value.value];
        buf := p.value.rest;
        i := i + 1;
        left := left';
      }
      return None;
    }
  }

  /** Reading left more entries from buf after acc gives target. */
  ghost predicate Completes(acc: seq<Player>, buf: Bytes, left: nat, target: PlayerList)
  {
    ReadPlayers(acc, buf, left) == target
  }

  /** One pass of the loop: reads the next entry (its chunk index is read
      and discarded); a failed read completes the reads with its error. */
  method ReadNextPlayer(buf: Bytes, ghost acc: seq<Player>, ghost left: nat, ghost target: PlayerList)
    returns (p: Result<Read<Player>>, ghost left': nat)
    requires left > 0 && Completes(acc, buf, left, target)
    ensures p.Err? ==> target == PlayerList(acc, Some(p.error))
    ensures p.Ok? ==> left' == left - 1 && Completes(acc + [p.value.value], p.value.rest, left', target)
  {
    p := ReadPlayer(buf);
    ReadPlayersStep(acc, buf, left);
    left' := left - 1;
  }

  /** A 'D' header and a count byte: what follows is read as count entries. */
  lemma DecodePlayersInfoHeader(prior: seq<Player>, data: Bytes)
    requires |data| >= 2 && data[0] == HPlayersInfoResponse
    ensures DecodePlayersInfo(prior, data) == ReadPlayers(prior, data[2..], data[1] as int)
  {
    assert data[1..][1..] == data[2..];
  }

  /** One entry of the loop: a failed entry ends the list, a read one is appended. */
  lemma ReadPlayersStep(acc: seq<Player>, s: Bytes, n: nat)
    requires n > 0
    ensures ReadPlayer(s).Err? ==> ReadPlayers(acc, s, n) == PlayerList(acc, Some(ReadPlayer(s).error))
    ensures ReadPlayer(s).Ok? ==>
              ReadPlayers(acc, s, n)
              == ReadPlayers(acc + [ReadPlayer(s).value.value], ReadPlayer(s).value.rest, n - 1)
  {
  }

  /** A player entry as a server sends it, with its chunk index. */
  datatype WirePlayer = WirePlayer(index: byte, player: Player)

  function EncodePlayer(w: WirePlayer): Bytes
  {
    [w.index] + (w.player.name + (EncodeLong(w.player.score) + LeBytes(w.player.duration, 4)))
  }

  function EncodePlayers(ws: seq<WirePlayer>): Bytes
  {
    if ws == [] then [] else EncodePlayer(ws[0]) + EncodePlayers(ws[1..])
  }

  function PlayersOf(ws: seq<WirePlayer>): (ps: seq<Player>)
    ensures |ps| == |ws|
  {
    if ws == [] then [] else [ws[0].player] + PlayersOf(ws[1..])
  }

  predicate ValidPlayers(ws: seq<WirePlayer>)
  {
    forall i :: 0 <= i < |ws| ==> IsCString(ws[i].player.name)
  }

  lemma ReadPlayerOfEncoding(w: WirePlayer, t: Bytes)
    requires IsCString(w.player.name)
    ensures ReadPlayer(EncodePlayer(w) + t) == Ok(Read(w.player, t))
  {
    var p := w.player;
    var d := LeBytes(p.duration, 4);
    Nest3([w.index], p.name, EncodeLong(p.score) + d, t);
    SeqAssoc(EncodeLong(p.score), d, t);
    ReadByteOf(w.index, p.name + (EncodeLong(p.score) + (d + t)));
    ReadStringOf(p.name, EncodeLong(p.score) + (d + t));
    ReadLongOfWriteLong(p.score, d + t);
    ReadULongOf(d, t);
    Pow256Widths();
    LeUintOfLeBytes(p.duration, 4);
  }

  lemma ValidPlayersTail(ws: seq<WirePlayer>)
    requires ValidPlayers(ws) && ws != []
    ensures IsCString(ws[0].player.name) && ValidPlayers(ws[1..])
  {
    forall i | 0 <= i < |ws[1..]|
      ensures IsCString(ws[1..][i].player.name)
    {
      assert ws[1..][i] == ws[i + 1];
    }
  }

  lemma {:induction false} ReadPlayersOfEncoding(acc: seq<Player>, ws: seq<WirePlayer>, t: Bytes)
    requires ValidPlayers(ws)
    ensures ReadPlayers(acc, EncodePlayers(ws) + t, |ws|) == PlayerList(acc + PlayersOf(ws), None)
    decreases |ws|
  {
    if ws == [] {
      assert acc + PlayersOf(ws) == acc;
    } else {
      var p := ws[0].player;
      ValidPlayersTail(ws);
      SeqAssoc(EncodePlayer(ws[0]), EncodePlayers(ws[1..]), t);
      ReadPlayerOfEncoding(ws[0], EncodePlayers(ws[1..]) + t);
      ReadPlayersOfEncoding(acc + [p], ws[1..], t);
      assert PlayersOf(ws) == [p] + PlayersOf(ws[1..]);
      SeqAssoc(acc, [p], PlayersOf(ws[1..]));
    }
  }

  /** Round trip: a 'D' response with count entries decodes to exactly those
      players, in wire order, appended to the receiver's list. */
  lemma DecodePlayersInfoOfEncoding(prior: seq<Player>, ws: seq<WirePlayer>, t: Bytes)
    requires ValidPlayers(ws) && |ws| < 256
    ensures DecodePlayersInfo(prior, [HPlayersInfoResponse] + ([|ws| as byte] + (EncodePlayers(ws) + t)))
            == PlayerList(prior + PlayersOf(ws), None)
  {
    ReadByteOf(HPlayersInfoResponse, [|ws| as byte] + (EncodePlayers(ws) + t));
    ReadByteOf(|ws| as byte, EncodePlayers(ws) + t);
    ReadPlayersOfEncoding(prior, ws, t);
  }

  // ---------------------------------------------------------------------
  // RCON frames

  /** The value rand.Int31 draws an id from. */
  type Int31 = x: int | 0 <= x < 0x8000_0000

  // rconRequestType
  const RrtAuth: Int32 := 3
  const RrtExecCmd: Int32 := 2
  const RrtAuthResp: Int32 := 2
  const RrtRespValue: Int32 := 0

  datatype RconRequest = RconRequest(size: Int32, id: Int32, typ: Int32, body: Bytes)

  /** newRCONRequest with the id drawn by the caller. */
  function NewRconRequest(typ: Int32, body: Bytes, id: Int31): (r: RconRequest)
    ensures r.typ == typ && r.body == body && r.id == id
    ensures |body| + 10 < 0x8000_0000 ==> r.size == |body| + 10
    ensures (r.size - (|body| + 10)) % 0x1_0000_0000 == 0
  {
    RconRequest(Wrap32(|body| + 10), id, typ, body)
  }

  /** The layout of a marshalled request: size, id, type, body, two NULs. */
  function RconFrame(r: RconRequest): (out: Bytes)
    ensures |out| == |r.body| + 14
  {
    EncodeLong(r.size) + (EncodeLong(r.id) + (EncodeLong(r.typ) + (r.body + [0, 0])))
  }

  method MarshalRconRequest(r: RconRequest) returns (out: Bytes)
    ensures out == RconFrame(r)
    ensures out[..12] == EncodeLong(r.size) + EncodeLong(r.id) + EncodeLong(r.typ)
    ensures out[12..] == r.body + [0, 0]
  {
    var buf := new Buffer();
    WriteLong(buf, r.size);
    WriteLong(buf, r.id);
    WriteLong(buf, r.typ);
    buf.Write(r.body);
    WriteNull(buf);
    WriteNull(buf);
    out := buf.bytes;
  }

  /** A request made by newRCONRequest marshals to size + 4 bytes: the size
      field counts exactly the bytes after it. */
  lemma RconFrameLength(typ: Int32, body: Bytes, id: Int31)
    requires |body| + 10 < 0x8000_0000
    ensures |RconFrame(NewRconRequest(typ, body, id))| == NewRconRequest(typ, body, id).size + 4
  {
  }

  datatype RconResponse = RconResponse(size: Int32, id: Int32, typ: Int32, body: Bytes)

  /** rconResponse.unmarshalBinary: three int32s, then size-10 body bytes,
      where size-10 is int32 arithmetic and wraps. */
  function UnmarshalRconResponse(data: Bytes): (r: Result<RconResponse>)
    ensures |data| < 12 ==> r.Err?
    ensures r.Err? ==> r.error == Eof || r.error == UnexpectedEof || r.error == BadLength
    ensures r.Ok? ==> |data| >= 12
    ensures |data| >= 12 && 0 <= Wrap32(Signed(data[..4]) - 10) <= |data| - 12 ==> r.Ok?
    ensures r.Ok? ==> r.value.size == Signed(data[..4]) && r.value.id == Signed(data[4..8])
    ensures r.Ok? ==> r.value.typ == Signed(data[8..12])
    ensures r.Ok? ==> var n := Wrap32(r.value.size - 10);
      0 <= n && 12 + n <= |data| && r.value.body == data[12..12 + n]
  {
    var size :- ReadLong(data);
    var id :- ReadLong(size.rest);
    var typ :- ReadLong(id.rest);
    var body :- ReadBytes(typ.rest, Wrap32(size.value - 10));
    assert data[4..][..4] == data[4..8] && data[4..][4..] == data[8..];
    assert data[8..][..4] == data[8..12] && data[8..][4..] == data[12..];
    assert data[12..][..|body.value|] == data[12..12 + |body.value|];
    Ok(RconResponse(size.value, id.value, typ.value, body.value))
  }

  /** A size below 10 fails for any frame shorter than 2^31 bytes: either the
      body length is negative or it wraps to more than the frame holds. */
  lemma UnmarshalRconResponseSmallSize(data: Bytes)
    requires |data| >= 12 && Signed(data[..4]) < 10 && |data| < 0x8000_0000
    ensures UnmarshalRconResponse(data).Err?
  {
  }

  /** Round trip: unmarshalling a frame whose size field counts the bytes
      after it recovers its size, id, type and body; the two NULs and
      anything after them are not read. */
  lemma UnmarshalRconOfFrame(q: RconRequest, t: Bytes)
    requires q.size == |q.body| + 10
    ensures UnmarshalRconResponse(RconFrame(q) + t) == Ok(RconResponse(q.size, q.id, q.typ, q.body))
  {
    var tail := [0, 0] + t;
    Nest4(EncodeLong(q.size), EncodeLong(q.id), EncodeLong(q.typ), q.body + [0, 0], t);
    SeqAssoc(q.body, [0, 0], t);
    ReadLongOfWriteLong(q.size, EncodeLong(q.id) + (EncodeLong(q.typ) + (q.body + tail)));
    ReadLongOfWriteLong(q.id, EncodeLong(q.typ) + (q.body + tail));
    ReadLongOfWriteLong(q.typ, q.body + tail);
    ReadBytesOf(q.body, tail);
  }

  /** In particular for what newRCONRequest and marshalBinary produce. */
  lemma UnmarshalRconOfRequest(typ: Int32, body: Bytes, id: Int31, t: Bytes)
    requires |body| + 10 < 0x8000_0000
    ensures var q := NewRconRequest(typ, body, id);
      UnmarshalRconResponse(RconFrame(q) + t) == Ok(RconResponse(q.size, q.id, q.typ, q.body))
  {
    UnmarshalRconOfFrame(NewRconRequest(typ, body, id), t);
  }
}
