/** The older player list response (a2sPlayerResponse.go). Unlike the
    current revision it keeps each entry's index, fills a freshly made
    slice of playersCount entries in place, field by field, reports a
    wrong header as an error of its own, and does not recover: a read past
    the end of the reply panics with the receiver half filled. */
module A2sPlayerResponse {
  import opened Errors
  import opened Wire
  import opened Comm

  /** Player of this revision: the index is kept beside the name, score
      and duration (the raw float32 bit pattern), which is Comm's WirePlayer. */
  type IndexedPlayer = WirePlayer

  /** The zero value make() fills a new slice with. */
  const ZeroPlayer: IndexedPlayer := WirePlayer(0, Player([], 0, 0))

  function Blank(n: nat): (z: seq<IndexedPlayer>)
    ensures |z| == n
  {
    if n == 0 then [] else [ZeroPlayer] + Blank(n - 1)
  }

  lemma {:induction false} BlankIsZero(n: nat)
    ensures forall k :: 0 <= k < n ==> Blank(n)[k] == ZeroPlayer
  {
    if n > 0 {
      BlankIsZero(n - 1);
      assert forall k :: 1 <= k < n ==> Blank(n)[k] == Blank(n - 1)[k - 1];
    }
  }

  /** One entry, read field by field into a zero entry: either all four
      fields and what follows, or the fields set before the read that
      panicked, and its error. */
  datatype EntryRead =
    | Whole(entry: IndexedPlayer, rest: Bytes)
    | Broken(partial: IndexedPlayer, error: Error)

  function ReadEntry(s: Bytes): (r: EntryRead)
    ensures |s| == 0 ==> r == Broken(ZeroPlayer, Eof)
    ensures r.Whole? ==> r.entry.index == s[0] && IsCString(r.entry.player.name) && |r.rest| < |s|
    ensures r.Broken? && |s| > 0 ==> r.partial.index == s[0]
  {
    match ReadByte(s)
    case Err(e) => Broken(ZeroPlayer, e)
    case Ok(i) =>
      match ReadString(i.rest)
      case Err(e) => Broken(WirePlayer(i.value, Player([], 0, 0)), e)
      case Ok(name) =>
        match ReadLong(name.rest)
        case Err(e) => Broken(WirePlayer(i.value, Player(name.value, 0, 0)), e)
        case Ok(score) =>
          match ReadFloat(score.rest)
          case Err(e) => Broken(WirePlayer(i.value, Player(name.value, score.value, 0)), e)
          case Ok(d) => Whole(WirePlayer(i.value, Player(name.value, score.value, d.value)), d.rest)
  }

  /** The same reads as the current revision's entry reader, which drops
      the index: it succeeds exactly when a whole entry is read, with the
      same player and the same rest, and fails with the same error. */
  lemma {:induction false} EntryIsPlayer(s: Bytes)
    ensures ReadEntry(s).Whole? <==> ReadPlayer(s).Ok?
    ensures ReadEntry(s).Whole? ==> ReadPlayer(s) == Ok(Read(ReadEntry(s).entry.player, ReadEntry(s).rest))
    ensures ReadEntry(s).Broken? ==> ReadPlayer(s) == Err(ReadEntry(s).error)
  {
  }

  /** Where the reads stopped: the entry being filled and the panic. */
  datatype Stop = Stop(partial: IndexedPlayer, error: Error)

  /** The whole entries read, in wire order, and where the reads stopped, if
      they did. */
  datatype Entries = Entries(read: seq<IndexedPlayer>, stop: Option<Stop>)

  /** The entries before, acc, and n more read from s. */
  function ReadEntries(acc: seq<IndexedPlayer>, s: Bytes, n: nat): (r: Entries)
    ensures |acc| <= |r.read| <= |acc| + n
    ensures r.stop.None? <==> |r.read| == |acc| + n
    decreases n
  {
    if n == 0 then Entries(acc, None)
    else
      match ReadEntry(s)
      case Broken(p, e) => Entries(acc, Some(Stop(p, e)))
      case Whole(p, rest) => ReadEntries(acc + [p], rest, n - 1)
  }

  /** The slice of n entries after the reads e: the whole entries, then the
      one being filled when a read panicked, then zero entries. */
  function Slots(e: Entries, n: nat): (z: seq<IndexedPlayer>)
    requires |e.read| <= n && (e.stop.Some? ==> |e.read| < n)
    ensures |z| == n && z[..|e.read|] == e.read
    ensures e.stop.Some? ==> z[|e.read|] == e.stop.value.partial
    ensures forall k :: |e.read| + (if e.stop.Some? then 1 else 0) <= k < n ==> z[k] == ZeroPlayer
  {
    BlankIsZero(n - |e.read|);
    if e.stop.None? then e.read + Blank(n - |e.read|)
    else
      BlankIsZero(n - |e.read| - 1);
      (e.read + [e.stop.value.partial]) + Blank(n - |e.read| - 1)
  }

  /** What UnMarshalBinary leaves behind: either the receiver untouched and
      an error (a wrong header is returned, a missing header or count byte
      panics), or the count set and a new slice of that many entries, the
      error being the panic of a failed entry read, if any. */
  datatype Outcome =
    | Rejected(error: Error)
    | Filled(count: byte, players: seq<IndexedPlayer>, failure: Option<Error>)

  /** The receiver after the count byte: count entries requested, e read. */
  function Fill(count: byte, e: Entries): (r: Outcome)
    requires |e.read| <= count as int && (e.stop.Some? ==> |e.read| < count as int)
  {
    Filled(count, Slots(e, count as int), if e.stop.Some? then Some(Panic(e.stop.value.error)) else None)
  }

  function Unmarshal(data: Bytes): (r: Outcome)
    ensures |data| == 0 ==> r == Rejected(Panic(Eof))
    ensures |data| > 0 && data[0] != HPlayersInfoResponse ==> r == Rejected(InvalidHeader)
    ensures |data| == 1 && data[0] == HPlayersInfoResponse ==> r == Rejected(Panic(Eof))
    ensures r.Filled? <==> |data| >= 2 && data[0] == HPlayersInfoResponse
    ensures r.Filled? ==> r.count == data[1] && |r.players| == data[1] as int
    ensures r.Filled? && r.failure.Some? ==> r.failure.value.Panic?
  {
    var h := ReadByte(data);
    if h.Err? then Rejected(Panic(h.error))
    else if h.value.value != HPlayersInfoResponse then Rejected(InvalidHeader)
    else
      var c := ReadByte(h.value.rest);
      if c.Err? then Rejected(Panic(c.error))
      else Fill(c.value.value, ReadEntries([], c.value.rest, c.value.value as int))
  }

  /** A 'D' header and a count byte: the entries follow them. */
  lemma {:induction false} UnmarshalHeader(data: Bytes)
    requires |data| >= 2 && data[0] == HPlayersInfoResponse
    ensures Unmarshal(data) == Fill(data[1], ReadEntries([], data[2..], data[1] as int))
  {
    assert data[1..][1..] == data[2..];
  }

  class A2SPlayersResponse {
    var playersCount: byte
    var players: array<IndexedPlayer>

    constructor ()
      ensures playersCount == 0 && players.Length == 0
    {
      playersCount := 0;
      players := new IndexedPlayer[0];
    }

    /** UnMarshalBinary; the error returned is the panic when it is one. */
    method UnMarshalBinary(data: Bytes) returns (err: Option<Error>)
      modifies this
      ensures Unmarshal(data).Rejected? ==>
                err == Some(Unmarshal(data).error) &&
                playersCount == old(playersCount) && players == old(players)
      ensures Unmarshal(data).Filled? ==>
                err == Unmarshal(data).failure && playersCount == Unmarshal(data).count &&
                fresh(players) && players[..] == Unmarshal(data).players
    {
      var h := ReadByte(data);
      if h.Err? {
        return Some(Panic(h.error));
      }
      if h.value.value != HPlayersInfoResponse {
        return Some(InvalidHeader);
      }
      var c := ReadByte(h.value.rest);
      if c.Err? {
        return Some(Panic(c.error));
      }
      UnmarshalHeader(data);
      playersCount := c.value.value;
      var a := new IndexedPlayer[playersCount as int](_ => ZeroPlayer);
      BlankIsZero(a.Length);
      assert a[..] == Blank(a.Length);
      players := a;
      var e := ReadInto(a, c.value.rest);
      err := if e.Some? then Some(Panic(e.value)) else None;
    }
  }

  /** The loop of UnMarshalBinary: fills a, of zero entries, in place from
      the front, and stops at the first entry that cannot be read whole,
      leaving in its slot the fields read before the panic. */
  method ReadInto(a: array<IndexedPlayer>, s: Bytes) returns (err: Option<Error>)
    requires a[..] == Blank(a.Length)
    modifies a
    ensures var e := ReadEntries([], s, a.Length);
      err == (if e.stop.Some? then Some(e.stop.value.error) else None) &&
      a[..] == Slots(e, a.Length)
  {
    ghost var target := ReadEntries([], s, a.Length);
    ghost var got: seq<IndexedPlayer> := [];
    ghost var left: nat := a.Length;
    var buf := s;
    var i := 0;
    assert a[..] == got + Blank(left);
    while i < a.Length
      invariant i == |got| && i + left == a.Length && Progress(a, got, buf, target, left)
    {
      var r, got', left' := ReadNext(a, i, buf, got, target, left);
      if r.Broken? {
        return Some(r.error);
      }
      got, buf, left := got', r.rest, left';
      i := i + 1;
    }
    Finished(a, got, buf, target, left);
    err := None;
  }

  /** The loop invariant: the entries got are in the front slots, the left
      slots after them are zero, and reading left more entries from what is
      left of the input completes the reads, target. */
  ghost predicate Progress(a: array<IndexedPlayer>, got: seq<IndexedPlayer>, buf: Bytes, target: Entries, left: nat)
    reads a
  {
    |got| + left == a.Length && a[..] == got + Blank(left) && ReadEntries(got, buf, left) == target
  }

  /** Reads the next entry into slot i, whole or broken. */
  method ReadNext(a: array<IndexedPlayer>, i: nat, buf: Bytes, ghost got: seq<IndexedPlayer>,
                  ghost target: Entries, ghost left: nat)
    returns (r: EntryRead, ghost got': seq<IndexedPlayer>, ghost left': nat)
    requires i == |got| && left > 0 && Progress(a, got, buf, target, left)
    modifies a
    ensures r.Whole? ==> |got'| == i + 1 && left' == left - 1 && Progress(a, got', r.rest, target, left')
    ensures r.Broken? ==> target == Entries(got, Some(Stop(r.partial, r.error))) && a[..] == Slots(target, a.Length)
  {
    r := ReadEntry(buf);
    got', left' := got, left;
    if r.Broken? {
      PutBroken(a, i, got, buf, target, left, r);
    } else {
      PutWhole(a, i, got, buf, target, left, r);
      got', left' := got + [r.entry], left - 1;
    }
  }

  /** A whole entry goes into the next slot. */
  method PutWhole(a: array<IndexedPlayer>, i: nat, ghost got: seq<IndexedPlayer>, ghost buf: Bytes,
                  ghost target: Entries, ghost left: nat, r: EntryRead)
    requires i == |got| && left > 0 && Progress(a, got, buf, target, left) && ReadEntry(buf) == r && r.Whole?
    modifies a
    ensures Progress(a, got + [r.entry], r.rest, target, left - 1)
  {
    FillOne(a, i, r.entry, got, left);
    EntriesOnEntry(got, buf, left, r);
  }

  /** A broken entry goes into the next slot, and the reads end there. */
  method PutBroken(a: array<IndexedPlayer>, i: nat, ghost got: seq<IndexedPlayer>, ghost buf: Bytes,
                   ghost target: Entries, ghost left: nat, r: EntryRead)
    requires i == |got| && left > 0 && Progress(a, got, buf, target, left) && ReadEntry(buf) == r && r.Broken?
    modifies a
    ensures target == Entries(got, Some(Stop(r.partial, r.error)))
    ensures a[..] == Slots(target, a.Length)
  {
    EntriesOnFailure(got, buf, left, r);
    FillOne(a, i, r.partial, got, left);
  }

  /** All slots filled: the reads are complete. */
  lemma {:induction false} Finished(a: array<IndexedPlayer>, got: seq<IndexedPlayer>, buf: Bytes, target: Entries, left: nat)
    requires Progress(a, got, buf, target, left) && left == 0
    ensures target == Entries(got, None)
    ensures a[..] == Slots(target, a.Length)
  {
    assert ReadEntries(got, buf, 0) == Entries(got, None);
  }

  /** Writing the next entry over the first zero one. */
  method FillOne(a: array<IndexedPlayer>, i: nat, v: IndexedPlayer, ghost got: seq<IndexedPlayer>, ghost left: nat)
    requires i == |got| && left > 0 && i + left == a.Length && a[..] == got + Blank(left)
    modifies a
    ensures a[..] == (got + [v]) + Blank(left - 1)
  {
    assert Blank(left) == [ZeroPlayer] + Blank(left - 1);
    a[i] := v;
    assert a[..] == old(a[..])[i := v];
    assert (got + ([ZeroPlayer] + Blank(left - 1)))[i := v] == (got + [v]) + Blank(left - 1);
  }

  /** One entry of the loop: a whole entry is appended ... */
  lemma {:induction false} EntriesOnEntry(acc: seq<IndexedPlayer>, s: Bytes, n: nat, r: EntryRead)
    requires n > 0 && ReadEntry(s) == r && r.Whole?
    ensures ReadEntries(acc, s, n) == ReadEntries(acc + [r.entry], r.rest, n - 1)
  {
  }

  /** ... and a broken one ends the reads. */
  lemma {:induction false} EntriesOnFailure(acc: seq<IndexedPlayer>, s: Bytes, n: nat, r: EntryRead)
    requires n > 0 && ReadEntry(s) == r && r.Broken?
    ensures ReadEntries(acc, s, n) == Entries(acc, Some(Stop(r.partial, r.error)))
  {
  }

  // ---------------------------------------------------------------------
  // Round trip

  lemma {:induction false} ReadEntryOfEncoding(w: WirePlayer, t: Bytes)
    requires IsCString(w.player.name)
    ensures ReadEntry(EncodePlayer(w) + t) == Whole(w, t)
  {
    var s := EncodePlayer(w) + t;
    ReadPlayerOfEncoding(w, t);
    EntryIsPlayer(s);
    assert s[0] == w.index;
  }

  lemma {:induction false} ReadEntriesOfEncoding(acc: seq<IndexedPlayer>, ws: seq<WirePlayer>, t: Bytes)
    requires ValidPlayers(ws)
    ensures ReadEntries(acc, EncodePlayers(ws) + t, |ws|) == Entries(acc + ws, None)
    decreases |ws|
  {
    if ws == [] {
      assert acc + ws == acc;
    } else {
      EntriesOfEncodingStep(acc, ws, t);
      ReadEntriesOfEncoding(acc + [ws[0]], ws[1..], t);
      SeqAssoc(acc, [ws[0]], ws[1..]);
      assert [ws[0]] + ws[1..] == ws;
    }
  }

  /** The first encoded entry is read whole. */
  lemma {:induction false} EntriesOfEncodingStep(acc: seq<IndexedPlayer>, ws: seq<WirePlayer>, t: Bytes)
    requires ValidPlayers(ws) && ws != []
    ensures ValidPlayers(ws[1..])
    ensures ReadEntries(acc, EncodePlayers(ws) + t, |ws|)
            == ReadEntries(acc + [ws[0]], EncodePlayers(ws[1..]) + t, |ws[1..]|)
  {
    var s := EncodePlayers(ws[1..]) + t;
    ValidPlayersTail(ws);
    SeqAssoc(EncodePlayer(ws[0]), EncodePlayers(ws[1..]), t);
    ReadEntryOfEncoding(ws[0], s);
    EntriesOnEntry(acc, EncodePlayers(ws) + t, |ws|, Whole(ws[0], s));
  }

  /** A 'D' response with count entries fills exactly count entries, in wire
      order, with their indexes kept. */
  lemma {:induction false} UnmarshalOfEncoding(ws: seq<WirePlayer>, t: Bytes)
    requires ValidPlayers(ws) && |ws| < 256
    ensures Unmarshal([HPlayersInfoResponse] + ([|ws| as byte] + (EncodePlayers(ws) + t)))
            == Filled(|ws| as byte, ws, None)
  {
    var data := [HPlayersInfoResponse] + ([|ws| as byte] + (EncodePlayers(ws) + t));
    UnmarshalHeader(data);
    assert data[2..] == EncodePlayers(ws) + t;
    ReadEntriesOfEncoding([], ws, t);
    SlotsOfComplete(Entries(ws, None), |ws|);
  }

  /** Reads that did not stop fill every slot. */
  lemma {:induction false} SlotsOfComplete(e: Entries, n: nat)
    requires e.stop.None? && |e.read| == n
    ensures Slots(e, n) == e.read
  {
    assert e.read + Blank(0) == e.read;
  }

  // ---------------------------------------------------------------------
  // Agreement with the current revision

  /** The current revision's list for the entries e. */
  function Agreed(e: Entries): PlayerList
  {
    PlayerList(PlayersOf(e.read), if e.stop.Some? then Some(e.stop.value.error) else None)
  }

  lemma {:induction false} ReadPlayersAgree(acc: seq<IndexedPlayer>, s: Bytes, n: nat)
    ensures ReadPlayers(PlayersOf(acc), s, n) == Agreed(ReadEntries(acc, s, n))
    decreases n, 1
  {
    if n == 0 {
      assert ReadEntries(acc, s, n) == Entries(acc, None);
      assert ReadPlayers(PlayersOf(acc), s, n) == PlayerList(PlayersOf(acc), None);
    } else if ReadEntry(s).Whole? {
      AgreeAfterEntry(acc, s, n, ReadEntry(s));
    } else {
      AgreeOnFailure(acc, s, n, ReadEntry(s));
    }
  }

  lemma {:induction false} AgreeAfterEntry(acc: seq<IndexedPlayer>, s: Bytes, n: nat, r: EntryRead)
    requires n > 0 && ReadEntry(s) == r && r.Whole?
    ensures ReadPlayers(PlayersOf(acc), s, n) == Agreed(ReadEntries(acc, s, n))
    decreases n, 0
  {
    var acc', s', n' := acc + [r.entry], r.rest, n - 1;
    PlayersAfterEntry(acc, s, n, r);
    EntriesOnEntry(acc, s, n, r);
    ReadPlayersAgree(acc', s', n');
  }

  /** The current revision's reader steps over the same entry. */
  lemma {:induction false} PlayersAfterEntry(acc: seq<IndexedPlayer>, s: Bytes, n: nat, r: EntryRead)
    requires n > 0 && ReadEntry(s) == r && r.Whole?
    ensures ReadPlayers(PlayersOf(acc), s, n) == ReadPlayers(PlayersOf(acc + [r.entry]), r.rest, n - 1)
  {
    EntryIsPlayer(s);
    PlayersOnEntry(PlayersOf(acc), s, n, r.entry.player, r.rest);
    PlayersOfSnoc(acc, r.entry);
  }

  /** The step of the current revision's reader beside a whole entry. */
  lemma {:induction false} PlayersOnEntry(prior: seq<Player>, s: Bytes, n: nat, p: Player, rest: Bytes)
    requires n > 0 && ReadPlayer(s) == Ok(Read(p, rest))
    ensures ReadPlayers(prior, s, n) == ReadPlayers(prior + [p], rest, n - 1)
  {
    ReadPlayersStep(prior, s, n);
  }

  lemma {:induction false} AgreeOnFailure(acc: seq<IndexedPlayer>, s: Bytes, n: nat, r: EntryRead)
    requires n > 0 && ReadEntry(s) == r && r.Broken?
    ensures ReadPlayers(PlayersOf(acc), s, n) == Agreed(ReadEntries(acc, s, n))
  {
    EntryIsPlayer(s);
    ReadPlayersStep(PlayersOf(acc), s, n);
    EntriesOnFailure(acc, s, n, r);
  }

  lemma {:induction false} PlayersOfSnoc(acc: seq<IndexedPlayer>, p: IndexedPlayer)
    ensures PlayersOf(acc + [p]) == PlayersOf(acc) + [p.player]
  {
    if acc != [] {
      assert (acc + [p])[1..] == acc[1..] + [p];
      PlayersOfSnoc(acc[1..], p);
      SeqAssoc([acc[0].player], PlayersOf(acc[1..]), [p.player]);
    }
  }

  /** On a reply with the 'D' header and a count, the two revisions read
      the same entries and stop at the same place: the current one returns
      the failure that the older one panics with, and its list is the
      older one's whole entries without their indexes. */
  lemma {:induction false} AgreesWithCurrent(data: Bytes)
    requires |data| >= 2 && data[0] == HPlayersInfoResponse
    ensures var older := Unmarshal(data);
      var cur := DecodePlayersInfo([], data);
      older.Filled? && |cur.players| <= data[1] as int &&
      cur.players == PlayersOf(older.players[..|cur.players|]) &&
      (cur.err.None? ==> older.failure.None? && cur.players == PlayersOf(older.players)) &&
      (cur.err.Some? ==> older.failure == Some(Panic(cur.err.value)))
  {
    var n := data[1] as int;
    var e := ReadEntries([], data[2..], n);
    UnmarshalHeader(data);
    DecodePlayersInfoHeader([], data);
    assert PlayersOf([]) == [];
    ReadPlayersAgree([], data[2..], n);
    var older := Unmarshal(data);
    assert older.players[..|e.read|] == e.read;
    if e.stop.None? {
      assert older.players == e.read;
    }
  }

  /** Elsewhere both fail with the receiver untouched, but differently: a
      wrong header is InvalidHeader here and errBadData in the current
      revision, and a missing header or count byte panics here while the
      current revision returns the read error. */
  lemma {:induction false} FailsWhereCurrentFails(data: Bytes)
    requires !(|data| >= 2 && data[0] == HPlayersInfoResponse)
    ensures var cur := DecodePlayersInfo([], data);
      Unmarshal(data).Rejected? && cur.players == [] && cur.err.Some? &&
      Unmarshal(data).error == (if |data| > 0 && data[0] != HPlayersInfoResponse then InvalidHeader else Panic(cur.err.value))
  {
  }
}
