/** The wire codec: little-endian integers and NUL-terminated strings read
    from the front of a byte buffer, and the writers that append to a buffer.

    A Go reader panics when the buffer runs short (the callers recover); here
    every reader returns `Err` with the error it panics with, and on success
    the value read together with the bytes still unread. A Go string is a byte
    string, so strings are `Bytes`. */
module Wire {
  import opened Errors

  /** An octet, Go's byte. */
  newtype byte = x: int | 0 <= x < 256

  type Bytes = seq<byte>

  type Int16 = x: int | -0x8000 <= x < 0x8000
  type Int32 = x: int | -0x8000_0000 <= x < 0x8000_0000
  type Int64 = x: int | -0x8000_0000_0000_0000 <= x < 0x8000_0000_0000_0000
  type Uint32 = x: int | 0 <= x < 0x1_0000_0000

  /** Go's conversion int32(x): keep the low 32 bits, two's complement. */
  function Wrap32(x: int): (r: Int32)
    ensures -0x8000_0000 <= x < 0x8000_0000 ==> r == x
    ensures (r - x) % 0x1_0000_0000 == 0
  {
    (x + 0x8000_0000) % 0x1_0000_0000 - 0x8000_0000
  }

  // ---------------------------------------------------------------------
  // Little-endian numbers

  /** 256 to the power n: how many values n bytes can hold. */
  function Pow256(n: nat): (r: nat)
    ensures r >= 1
  {
    if n == 0 then 1 else 256 * Pow256(n - 1)
  }

  /** The unsigned value of a byte string read little-endian. */
  function LeUint(s: Bytes): nat
  {
    if s == [] then 0 else s[0] as nat + 256 * LeUint(s[1..])
  }

  /** The w low bytes of u, least significant first. */
  function LeBytes(u: nat, w: nat): (r: Bytes)
    ensures |r| == w
  {
    if w == 0 then [] else [(u % 256) as byte] + LeBytes(u / 256, w - 1)
  }

  /** The two's complement value of an unsigned w-byte number. */
  function ToSigned(u: nat, w: nat): int
  {
    if 2 * u >= Pow256(w) then u - Pow256(w) else u
  }

  /** The value of a byte string read as a signed little-endian number. */
  function Signed(s: Bytes): int
  {
    ToSigned(LeUint(s), |s|)
  }

  /** The w-byte two's complement encoding of x, least significant first. */
  function EncodeSigned(x: int, w: nat): (r: Bytes)
    ensures |r| == w
  {
    LeBytes(x % Pow256(w), w)
  }

  lemma Pow256Widths()
    ensures Pow256(1) == 0x100 && Pow256(2) == 0x1_0000 && Pow256(4) == 0x1_0000_0000
    ensures Pow256(8) == 0x1_0000_0000_0000_0000
  {
  }

  lemma {:induction false} LeUintBound(s: Bytes)
    ensures LeUint(s) < Pow256(|s|)
  {
    if s != [] {
      LeUintBound(s[1..]);
    }
  }

  lemma DivBound(u: nat, p: nat)
    requires u < 256 * p
    ensures u / 256 < p
  {
  }

  /** Reading back the bytes of u gives u. */
  lemma {:induction false} LeUintOfLeBytes(u: nat, w: nat)
    requires u < Pow256(w)
    ensures LeUint(LeBytes(u, w)) == u
  {
    if w > 0 {
      DivBound(u, Pow256(w - 1));
      LeUintOfLeBytes(u / 256, w - 1);
      var s := LeBytes(u, w);
      assert s[1..] == LeBytes(u / 256, w - 1);
      assert s[0] as nat == u % 256;
    }
  }

  /** Writing back the value of a byte string gives the byte string. */
  lemma {:induction false} LeBytesOfLeUint(s: Bytes)
    ensures LeBytes(LeUint(s), |s|) == s
  {
    if s != [] {
      LeBytesOfLeUint(s[1..]);
      SplitLowByte(s[0] as nat, LeUint(s[1..]));
    }
  }

  lemma SplitLowByte(a: nat, b: nat)
    requires a < 256
    ensures (a + 256 * b) % 256 == a && (a + 256 * b) / 256 == b
  {
  }

  lemma ModOfSmall(x: int, p: int)
    requires p > 0 && -p <= x < p
    ensures x % p == if x >= 0 then x else x + p
  {
    if x < 0 {
      assert 0 <= x + p < p;
      assert x + p == x + 1 * p;
    }
  }

  /** A signed number survives encoding and decoding at any width that holds it. */
  lemma SignedOfEncodeSigned(x: int, w: nat)
    requires w > 0 && -(Pow256(w) as int) <= 2 * x < Pow256(w)
    ensures Signed(EncodeSigned(x, w)) == x
  {
    var p := Pow256(w);
    ModOfSmall(x, p);
    LeUintOfLeBytes(x % p, w);
  }

  /** Encoding the decoded value of a byte string gives the byte string back. */
  lemma EncodeSignedOfSigned(s: Bytes)
    ensures EncodeSigned(Signed(s), |s|) == s
  {
    var p := Pow256(|s|);
    var u := LeUint(s);
    LeUintBound(s);
    ModOfSmall(ToSigned(u, |s|), p);
    assert ToSigned(u, |s|) % p == u;
    LeBytesOfLeUint(s);
  }

  /** The signed value of w bytes is in the two's complement range of w bytes. */
  lemma SignedRange(s: Bytes)
    requires |s| > 0
    ensures -(Pow256(|s|) as int) <= 2 * Signed(s) < Pow256(|s|)
  {
    LeUintBound(s);
  }

  function EncodeShort(v: Int16): (r: Bytes)
    ensures |r| == 2
  {
    EncodeSigned(v, 2)
  }

  function EncodeLong(v: Int32): (r: Bytes)
    ensures |r| == 4
  {
    EncodeSigned(v, 4)
  }

  function EncodeLongLong(v: Int64): (r: Bytes)
    ensures |r| == 8
  {
    EncodeSigned(v, 8)
  }

  function DecodeShort(b: Bytes): Int16
    requires |b| == 2
  {
    Pow256Widths();
    SignedRange(b);
    Signed(b)
  }

  function DecodeLong(b: Bytes): Int32
    requires |b| == 4
  {
    Pow256Widths();
    SignedRange(b);
    Signed(b)
  }

  function DecodeULong(b: Bytes): Uint32
    requires |b| == 4
  {
    Pow256Widths();
    LeUintBound(b);
    LeUint(b)
  }

  function DecodeLongLong(b: Bytes): Int64
    requires |b| == 8
  {
    Pow256Widths();
    SignedRange(b);
    Signed(b)
  }

  lemma {:induction false} DecodeLongOfEncodeLong(x: Int32)
    ensures DecodeLong(EncodeLong(x)) == x
  {
    Pow256Widths();
    SignedOfEncodeSigned(x, 4);
  }

  lemma {:induction false} EncodeLongOfDecodeLong(b: Bytes)
    requires |b| == 4
    ensures EncodeLong(DecodeLong(b)) == b
  {
    EncodeSignedOfSigned(b);
  }

  // ---------------------------------------------------------------------
  // Readers

  /** A value read from a buffer and the bytes left unread after it: the
      readers consume a bytes.Buffer from the front, so the buffer's state
      is its unread part. */
  datatype Read<+T> = Read(value: T, rest: Bytes)

  /** io.ReadFull of n bytes from a reader whose unread bytes are s: io.EOF
      when nothing is left, io.ErrUnexpectedEOF when some but fewer than n
      bytes are left; reading 0 bytes always succeeds. */
  function ReadFull(s: Bytes, n: nat): (r: Result<Read<Bytes>>)
    ensures r.Ok? <==> n <= |s|
    ensures r.Ok? ==> r.value == Read(s[..n], s[n..])
    ensures r.Err? ==> r.error == (if |s| == 0 then Eof else UnexpectedEof)
  {
    if n == 0 then Ok(Read(s[..0], s))
    else if n > |s| then Err(if |s| == 0 then Eof else UnexpectedEof)
    else Ok(Read(s[..n], s[n..]))
  }

  function ReadByte(s: Bytes): (r: Result<Read<byte>>)
    ensures r.Ok? <==> |s| > 0
    ensures r.Ok? ==> r.value == Read(s[0], s[1..])
    ensures r.Err? ==> r.error == Eof
  {
    var b :- ReadFull(s, 1);
    Ok(Read(b.value[0], b.rest))
  }

  /** readBytes: make([]byte, n) panics for a negative n, then io.ReadFull. */
  function ReadBytes(s: Bytes, n: int): (r: Result<Read<Bytes>>)
    ensures r.Ok? <==> 0 <= n <= |s|
    ensures r.Ok? ==> r.value == Read(s[..n], s[n..])
    ensures n < 0 ==> r == Err(BadLength)
    ensures 0 <= n && r.Err? ==> r.error == (if |s| == 0 then Eof else UnexpectedEof)
  {
    if n < 0 then Err(BadLength) else ReadFull(s, n)
  }

  /** binary.Read of an int16: io.ReadFull of 2 bytes, little-endian. */
  function ReadShort(s: Bytes): (r: Result<Read<Int16>>)
    ensures r.Ok? <==> 2 <= |s|
    ensures r.Ok? ==> r.value == Read(Signed(s[..2]), s[2..])
    ensures r.Err? ==> r.error == (if |s| == 0 then Eof else UnexpectedEof)
  {
    var b :- ReadFull(s, 2);
    Ok(Read(DecodeShort(b.value), b.rest))
  }

  function ReadLong(s: Bytes): (r: Result<Read<Int32>>)
    ensures r.Ok? <==> 4 <= |s|
    ensures r.Ok? ==> r.value == Read(Signed(s[..4]), s[4..])
    ensures r.Err? ==> r.error == (if |s| == 0 then Eof else UnexpectedEof)
  {
    var b :- ReadFull(s, 4);
    Ok(Read(DecodeLong(b.value), b.rest))
  }

  function ReadULong(s: Bytes): (r: Result<Read<Uint32>>)
    ensures r.Ok? <==> 4 <= |s|
    ensures r.Ok? ==> r.value == Read(LeUint(s[..4]), s[4..])
    ensures r.Err? ==> r.error == (if |s| == 0 then Eof else UnexpectedEof)
  {
    var b :- ReadFull(s, 4);
    Ok(Read(DecodeULong(b.value), b.rest))
  }

  function ReadLongLong(s: Bytes): (r: Result<Read<Int64>>)
    ensures r.Ok? <==> 8 <= |s|
    ensures r.Ok? ==> r.value == Read(Signed(s[..8]), s[8..])
    ensures r.Err? ==> r.error == (if |s| == 0 then Eof else UnexpectedEof)
  {
    var b :- ReadFull(s, 8);
    Ok(Read(DecodeLongLong(b.value), b.rest))
  }

  /** readFloat: the float is kept as its raw IEEE-754 bit pattern, the
      little-endian uint32 that math.Float32frombits would reinterpret. */
  function ReadFloat(s: Bytes): (r: Result<Read<Uint32>>)
    ensures r.Ok? <==> 4 <= |s|
    ensures r.Ok? ==> r.value == Read(LeUint(s[..4]), s[4..])
    ensures r.Err? ==> r.error == (if |s| == 0 then Eof else UnexpectedEof)
  {
    ReadULong(s)
  }

  /** data[i] is not a NUL. */
  predicate NotNul(data: Bytes, i: nat)
    requires i < |data|
  {
    data[i] != 0
  }

  /** No NUL among data[lo..hi]. The quantifier fires only on NotNul terms,
      so a proof names the positions it needs. */
  predicate NulFree(data: Bytes, lo: nat, hi: nat)
    requires lo <= hi <= |data|
  {
    forall i {:trigger NotNul(data, i)} | lo <= i < hi :: NotNul(data, i)
  }

  /** A string as read from the wire: it ends with its terminating NUL, and
      that is its only NUL. */
  predicate IsCString(s: Bytes)
  {
    |s| > 0 && s[|s| - 1] == 0 && NulFree(s, 0, |s| - 1)
  }

  /** readString on a bytes.Buffer: buf.ReadBytes(0), which returns the bytes
      up to AND INCLUDING the first NUL, and io.EOF when there is none. The
      string read is a wire string and the input is that string followed by
      what is left, so the string ends at the first NUL. */
  function ReadString(s: Bytes): (r: Result<Read<Bytes>>)
    ensures r.Ok? ==> IsCString(r.value.value) && s == r.value.value + r.value.rest
    ensures r.Err? ==> r.error == Eof
  {
    if |s| == 0 then Err(Eof)
    else if s[0] == 0 then
      assert s == [0] + s[1..] && !NotNul(s, 0);
      Ok(Read([0], s[1..]))
    else
      NulFreeCons(s);
      match ReadString(s[1..])
      case Err(e) => Err(e)
      case Ok(r) =>
        CStringCons(s[0], r.value);
        SeqAssoc([s[0]], r.value, r.rest);
        assert s == [s[0]] + s[1..];
        Ok(Read([s[0]] + r.value, r.rest))
  }

  /** A sequence is NUL-free when its head is no NUL and its tail is NUL-free. */
  lemma NulFreeCons(s: Bytes)
    requires |s| > 0
    ensures NulFree(s, 0, |s|) <==> s[0] != 0 && NulFree(s[1..], 0, |s| - 1)
  {
    if s[0] != 0 && NulFree(s[1..], 0, |s| - 1) {
      forall i | 0 <= i < |s|
        ensures NotNul(s, i)
      {
        if i > 0 {
          assert s[i] == s[1..][i - 1] && NotNul(s[1..], i - 1);
        }
      }
    }
    if NulFree(s, 0, |s|) {
      assert NotNul(s, 0);
      forall i | 0 <= i < |s| - 1
        ensures NotNul(s[1..], i)
      {
        assert s[1..][i] == s[i + 1] && NotNul(s, i + 1);
      }
    }
  }

  /** A byte that is no NUL before a wire string gives a wire string. */
  lemma CStringCons(c: byte, v: Bytes)
    requires c != 0 && IsCString(v)
    ensures IsCString([c] + v)
  {
    var w := [c] + v;
    assert w[|w| - 1] == v[|v| - 1];
    forall i | 0 <= i < |w| - 1
      ensures NotNul(w, i)
    {
      if i > 0 {
        assert w[i] == v[i - 1] && NotNul(v, i - 1);
      }
    }
  }

  /** No NUL in v, and c is not a NUL either. */
  lemma NulFreeSnoc(v: Bytes, c: byte)
    requires NulFree(v, 0, |v|) && c != 0
    ensures NulFree(v + [c], 0, |v| + 1)
  {
    var w := v + [c];
    forall i | 0 <= i < |w|
      ensures NotNul(w, i)
    {
      if i < |v| {
        assert w[i] == v[i] && NotNul(v, i);
      }
    }
  }

  /** readString on any other io.Reader: one byte at a time into a local
      bytes.Buffer, until and including a NUL. It reads the same string. */
  method ReadStringByteByByte(s: Bytes) returns (r: Result<Read<Bytes>>)
    ensures r == ReadString(s)
  {
    var buf := new Buffer();
    var cur := s;
    while true
      invariant s == buf.bytes + cur
      invariant NulFree(buf.bytes, 0, |buf.bytes|)
      decreases |cur|
    {
      var b := ReadFull(cur, 1);
      if b.Err? {
        assert s == buf.bytes;
        ReadStringFailsWithoutNul(s);
        return Err(b.error);
      }
      var c := b.value.value[0];
      ghost var before := buf.bytes;
      buf.WriteByte(c);
      assert cur == [c] + b.value.rest;
      SeqAssoc(before, [c], b.value.rest);
      cur := b.value.rest;
      if c == 0 {
        assert EncodeString(before) == buf.bytes;
        ReadStringOf(buf.bytes, cur);
        return Ok(Read(buf.bytes, cur));
      }
      NulFreeSnoc(before, c);
    }
  }

  /** readString fails exactly when no NUL is left, and then with io.EOF. */
  lemma {:induction false} ReadStringFailsWithoutNul(s: Bytes)
    ensures ReadString(s).Err? <==> NulFree(s, 0, |s|)
    ensures ReadString(s).Err? ==> ReadString(s) == Err(Eof)
    decreases |s|
  {
    if |s| > 0 {
      NulFreeCons(s);
      if s[0] != 0 {
        ReadStringFailsWithoutNul(s[1..]);
      }
    }
  }

  /** Reading a wire string followed by anything gives exactly that string
      and leaves what follows it. */
  lemma {:induction false} ReadStringOf(v: Bytes, t: Bytes)
    requires IsCString(v)
    ensures ReadString(v + t) == Ok(Read(v, t))
    decreases |v|
  {
    var s := v + t;
    assert s[0] == v[0];
    if |v| == 1 {
      assert s[1..] == t;
    } else {
      assert NotNul(v, 0);
      var w := v[1..];
      assert w[|w| - 1] == v[|v| - 1];
      forall i | 0 <= i < |w| - 1
        ensures NotNul(w, i)
      {
        assert w[i] == v[i + 1] && NotNul(v, i + 1);
      }
      ReadStringOf(w, t);
      assert s[1..] == w + t;
      assert [v[0]] + w == v;
    }
  }

  /** Reading a string never looks past its NUL: bytes appended to the input
      are left unread. */
  lemma ReadStringExtend(s: Bytes, t: Bytes)
    requires ReadString(s).Ok?
    ensures ReadString(s + t) == Ok(Read(ReadString(s).value.value, ReadString(s).value.rest + t))
  {
    var r := ReadString(s).value;
    SeqAssoc(r.value, r.rest, t);
    ReadStringOf(r.value, r.rest + t);
  }

  /** Round trip: writeString(v) for a NUL-free v, read back by readString,
      gives v with its NUL and consumes exactly what was written. */
  lemma ReadStringOfWriteString(v: Bytes, t: Bytes)
    requires NulFree(v, 0, |v|)
    ensures ReadString(EncodeString(v) + t) == Ok(Read(v + [0], t))
  {
    ReadStringOf(EncodeString(v), t);
  }

  /** io.ReadFull of n bytes never looks past them. */
  lemma ReadFullExtend(s: Bytes, n: nat, t: Bytes)
    requires n <= |s|
    ensures ReadFull(s + t, n) == Ok(Read(s[..n], s[n..] + t))
  {
    assert (s + t)[..n] == s[..n];
    assert (s + t)[n..] == s[n..] + t;
  }

  /** io.ReadFull of |v| bytes from v followed by anything gives v. */
  lemma ReadFullOf(v: Bytes, t: Bytes)
    ensures ReadFull(v + t, |v|) == Ok(Read(v, t))
  {
    assert (v + t)[..|v|] == v;
    assert (v + t)[|v|..] == t;
  }

  lemma ReadByteOf(b: byte, t: Bytes)
    ensures ReadByte([b] + t) == Ok(Read(b, t))
  {
    assert ([b] + t)[1..] == t;
  }

  lemma ReadByteExtend(s: Bytes, t: Bytes)
    requires ReadByte(s).Ok?
    ensures ReadByte(s + t) == Ok(Read(s[0], s[1..] + t))
  {
    ReadFullExtend(s, 1, t);
  }

  lemma ReadBytesOf(v: Bytes, t: Bytes)
    ensures ReadBytes(v + t, |v|) == Ok(Read(v, t))
  {
    ReadFullOf(v, t);
  }

  lemma ReadBytesExtend(s: Bytes, n: int, t: Bytes)
    requires ReadBytes(s, n).Ok?
    ensures ReadBytes(s + t, n) == Ok(Read(s[..n], s[n..] + t))
  {
    ReadFullExtend(s, n, t);
  }

  /** Round trip: the four bytes writeLong(x) appends read back as x. */
  lemma ReadLongOfWriteLong(x: Int32, t: Bytes)
    ensures ReadLong(EncodeLong(x) + t) == Ok(Read(x, t))
  {
    ReadFullOf(EncodeLong(x), t);
    DecodeLongOfEncodeLong(x);
  }

  lemma ReadShortOfEncodeShort(x: Int16, t: Bytes)
    ensures ReadShort(EncodeShort(x) + t) == Ok(Read(x, t))
  {
    ReadFullOf(EncodeShort(x), t);
    Pow256Widths();
    SignedOfEncodeSigned(x, 2);
  }

  lemma ReadShortExtend(s: Bytes, t: Bytes)
    requires ReadShort(s).Ok?
    ensures ReadShort(s + t) == Ok(Read(Signed(s[..2]), s[2..] + t))
  {
    ReadFullExtend(s, 2, t);
  }

  lemma ReadLongLongOfEncodeLongLong(x: Int64, t: Bytes)
    ensures ReadLongLong(EncodeLongLong(x) + t) == Ok(Read(x, t))
  {
    ReadFullOf(EncodeLongLong(x), t);
    Pow256Widths();
    SignedOfEncodeSigned(x, 8);
  }

  lemma ReadULongOf(b: Bytes, t: Bytes)
    requires |b| == 4
    ensures ReadULong(b + t) == Ok(Read(LeUint(b), t))
  {
    ReadFullOf(b, t);
  }

  // Regrouping concatenations, with no reader in sight.

  lemma SeqAssoc<T>(a: seq<T>, b: seq<T>, c: seq<T>)
    ensures a + b + c == a + (b + c)
  {
  }

  lemma Nest3<T>(a: seq<T>, b: seq<T>, c: seq<T>, t: seq<T>)
    ensures (a + (b + c)) + t == a + (b + (c + t))
  {
    SeqAssoc(a, b + c, t);
    SeqAssoc(b, c, t);
  }

  lemma Nest4<T>(a: seq<T>, b: seq<T>, c: seq<T>, d: seq<T>, t: seq<T>)
    ensures (a + (b + (c + d))) + t == a + (b + (c + (d + t)))
  {
    SeqAssoc(a, b + (c + d), t);
    Nest3(b, c, d, t);
  }

  lemma Nest5<T>(a: seq<T>, b: seq<T>, c: seq<T>, d: seq<T>, g: seq<T>, t: seq<T>)
    ensures (a + (b + (c + (d + g)))) + t == a + (b + (c + (d + (g + t))))
  {
    SeqAssoc(a, b + (c + (d + g)), t);
    Nest4(b, c, d, g, t);
  }
  // ---------------------------------------------------------------------
  // toInt

  /** The dynamic type of the value handed to toInt. */
  datatype Dynamic =
    | DByte(b: byte)
    | DInt16(i16: Int16)
    | DInt32(i32: Int32)
    | DInt64(i64: Int64)
    | DOther               // a value of any type toInt has no case for

  /** toInt: the integer cases convert to Go's int (64 bits) keeping the
      value; a value of a type with no case panics with errBadData. */
  function ToInt(v: Dynamic): (r: Result<Int64>)
    ensures r.Ok? <==> !v.DOther?
    ensures r.Err? ==> r.error == BadData
  {
    match v
    case DByte(b) => Ok(b as int)
    case DInt16(i) => Ok(i)
    case DInt32(i) => Ok(i)
    case DInt64(i) => Ok(i)
    case DOther => Err(BadData)
  }

  /** toInt preserves the value of every integer it is given. */
  lemma ToIntPreservesValue(v: Dynamic)
    ensures v.DByte? ==> ToInt(v) == Ok(v.b as int) && 0 <= ToInt(v).value < 256
    ensures v.DInt16? ==> ToInt(v) == Ok(v.i16)
    ensures v.DInt32? ==> ToInt(v) == Ok(v.i32)
    ensures v.DInt64? ==> ToInt(v) == Ok(v.i64)
  {
  }

  // ---------------------------------------------------------------------
  // Writers

  /** Go's bytes.Buffer, as far as the writers use it. */
  class Buffer {
    var bytes: Bytes

    constructor ()
      ensures bytes == []
    {
      bytes := [];
    }

    method Write(p: Bytes)
      modifies this
      ensures bytes == old(bytes) + p
    {
      bytes := bytes + p;
    }

    method WriteByte(b: byte)
      modifies this
      ensures bytes == old(bytes) + [b]
    {
      bytes := bytes + [b];
    }
  }

  /** The connectionless-packet marker FF FF FF FF. */
  const RequestPrefix: Bytes := [0xFF, 0xFF, 0xFF, 0xFF]

  /** What writeString appends: the string and a NUL. */
  function EncodeString(v: Bytes): (r: Bytes)
    ensures |r| == |v| + 1 && r[..|v|] == v && r[|v|] == 0
    ensures NulFree(v, 0, |v|) ==> IsCString(r)
  {
    var r := v + [0];
    assert r[..|v|] == v;
    assert NulFree(v, 0, |v|) ==> NulFree(r, 0, |r| - 1) by {
      if NulFree(v, 0, |v|) {
        forall i | 0 <= i < |r| - 1
          ensures NotNul(r, i)
        {
          assert r[i] == v[i] && NotNul(v, i);
        }
      }
    }
    r
  }

  method WriteRequestPrefix(buf: Buffer)
    modifies buf
    ensures buf.bytes == old(buf.bytes) + [0xFF, 0xFF, 0xFF, 0xFF]
  {
    buf.Write(RequestPrefix);
  }

  method WriteString(buf: Buffer, v: Bytes)
    modifies buf
    ensures buf.bytes == old(buf.bytes) + EncodeString(v)
  {
    buf.Write(v);
    buf.WriteByte(0);
  }

  method WriteByte(buf: Buffer, v: byte)
    modifies buf
    ensures buf.bytes == old(buf.bytes) + [v]
  {
    buf.WriteByte(v);
  }

  method WriteLong(buf: Buffer, v: Int32)
    modifies buf
    ensures buf.bytes == old(buf.bytes) + EncodeLong(v)
  {
    buf.Write(EncodeLong(v));
  }

  method WriteNull(buf: Buffer)
    modifies buf
    ensures buf.bytes == old(buf.bytes) + [0]
  {
    buf.WriteByte(0);
  }
}
