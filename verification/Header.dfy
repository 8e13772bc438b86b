/** The on-disk formats of internal/storage/header.go: shard headers and object markers. */
module Header {
  import opened Arithmetic
  import opened Bytes
  import opened Types

  // ----- Little-endian integers

  function Pow256(w: nat): (r: nat)
    ensures r >= 1
  {
    if w == 0 then 1 else 256 * Pow256(w - 1)
  }

  function LittleEndian(n: nat, w: nat): (s: seq<byte>)
    ensures |s| == w
  {
    if w == 0 then [] else [OfInt(n % 256)] + LittleEndian(n / 256, w - 1)
  }

  function FromLittleEndian(s: seq<byte>): nat {
    if |s| == 0 then 0 else ToInt(s[0]) + 256 * FromLittleEndian(s[1..])
  }

  lemma {:induction false} FromLittleEndianBound(s: seq<byte>)
    ensures FromLittleEndian(s) < Pow256(|s|)
  {
    if |s| > 0 {
      hide ToInt;
      ToIntBound(s[0]);
      FromLittleEndianBound(s[1..]);
    }
  }

  lemma {:induction false} IntegerRoundTrip(n: nat, w: nat)
    requires n < Pow256(w)
    ensures FromLittleEndian(LittleEndian(n, w)) == n
  {
    if w > 0 {
      hide ToInt, OfInt;
      ToIntOfInt(n % 256);
      IntegerRoundTrip(n / 256, w - 1);
      assert LittleEndian(n, w)[1..] == LittleEndian(n / 256, w - 1);
    }
  }

  lemma {:induction false} BytesRoundTrip(s: seq<byte>)
    ensures LittleEndian(FromLittleEndian(s), |s|) == s
  {
    if |s| > 0 {
      hide ToInt, OfInt, Pow256;
      ToIntBound(s[0]);
      OfIntToInt(s[0]);
      BytesRoundTrip(s[1..]);
      LowByte(ToInt(s[0]), FromLittleEndian(s[1..]));
    }
  }

  lemma LowByte(t: nat, v: nat)
    requires t < 256
    ensures (t + 256 * v) % 256 == t && (t + 256 * v) / 256 == v
  {
  }

  lemma Widths()
    ensures Pow256(2) == 0x1_0000 && Pow256(4) == 0x1_0000_0000 && Pow256(8) == 0x1_0000_0000_0000_0000
  {
    assert Pow256(2) == 0x1_0000;
    assert Pow256(4) == 0x1_0000 * Pow256(2);
    assert Pow256(6) == 0x1_0000 * Pow256(4);
    assert Pow256(8) == 0x1_0000 * Pow256(6);
  }

  /** Two's complement, as Go's conversions between int64 and uint64. */
  function ToUnsigned(n: i64): (u: nat)
    ensures u < 0x1_0000_0000_0000_0000
  {
    if n < 0 then n + 0x1_0000_0000_0000_0000 else n
  }

  function ToSigned(u: nat): (n: i64)
    requires u < 0x1_0000_0000_0000_0000
    ensures ToUnsigned(n) == u
  {
    if u >= 0x8000_0000_0000_0000 then u - 0x1_0000_0000_0000_0000 else u
  }

  /** Reads an unsigned integer of |s| bytes, below the stated bound. */
  function ReadUnsigned(s: seq<byte>): (n: nat)
    requires |s| == 2 || |s| == 4 || |s| == 8
    ensures |s| == 2 ==> n < 0x1_0000
    ensures |s| == 4 ==> n < 0x1_0000_0000
    ensures |s| == 8 ==> n < 0x1_0000_0000_0000_0000
  {
    Widths();
    FromLittleEndianBound(s);
    FromLittleEndian(s)
  }

  // ----- Formats

  function Text(s: string): seq<byte> { seq(|s|, i requires 0 <= i < |s| => OfInt(s[i] as int % 256)) }

  const SHARD_MAGIC: seq<byte> := Text("SHARSH01")
  const OBJECT_MAGIC: seq<byte> := Text("SHAROBJ1")
  const VERSION := LittleEndian(1, 2)

  /** The fixed-width fields after the object id. */
  function Fields(h: ShardHeader): (s: seq<byte>)
    ensures |s| == 60
  {
    LittleEndian(h.stripeIdx, 4) + LittleEndian(h.shardIdx, 4)
    + LittleEndian(h.dataShards, 2) + LittleEndian(h.parityShards, 2)
    + LittleEndian(ToUnsigned(h.stripeLen), 8) + LittleEndian(ToUnsigned(h.dataLen), 8)
    + h.checksum
  }

  /** The bytes of a shard header whose object id fits its length field. */
  function Layout(h: ShardHeader): (s: seq<byte>)
    requires |h.objectID| < 0x1_0000
    ensures |s| == 72 + |h.objectID|
  {
    SHARD_MAGIC + VERSION + LittleEndian(|h.objectID|, 2) + h.objectID + Fields(h)
  }

  /** What the encoder insists on. */
  predicate Encodable(h: ShardHeader) {
    h.objectID != [] && h.dataShards >= 1 && h.parityShards >= 1 && |h.objectID| <= 65535
  }

  function FieldsAt(id: ObjectID, s: seq<byte>): (h: ShardHeader)
    requires |s| == 60
  {
    ShardHeader(id, ReadUnsigned(s[0..4]), ReadUnsigned(s[4..8]), ReadUnsigned(s[8..10]), ReadUnsigned(s[10..12]),
                ToSigned(ReadUnsigned(s[12..20])), ToSigned(ReadUnsigned(s[20..28])), s[28..60])
  }

  /** The header at the front of s, read by offsets; the second part is what follows it. */
  function Parsed(s: seq<byte>): Result<(ShardHeader, seq<byte>)> {
    if |s| < 12 || s[..8] != SHARD_MAGIC || s[8..10] != VERSION then Err(BadHeader)
    else
      var n := ReadUnsigned(s[10..12]);
      if |s| < 72 + n then Err(BadHeader)
      else Ok((FieldsAt(s[12..12 + n], s[12 + n..72 + n]), s[72 + n..]))
  }

  // ----- The bytes at their places

  /** From a place on, the w digits of n to base 256, least significant first. */
  ghost predicate Digits(s: seq<byte>, at: nat, w: nat, n: nat) {
    at + w <= |s| && forall x :: 0 <= x < w ==> ToInt(s[at + x]) == (n / Pow256(x)) % 256
  }

  /** The first bytes have the given values. */
  ghost predicate Begins(s: seq<byte>, values: seq<nat>) {
    |values| <= |s| && forall x :: 0 <= x < |values| ==> ToInt(s[x]) == values[x]
  }

  /** A shard header as the format has it: "SHARSH01", version 1, the id by its length, and the fields in their order. */
  ghost predicate ShardHeaderBytes(s: seq<byte>, h: ShardHeader) {
    var n := |h.objectID|;
    && |s| == 72 + n
    && Begins(s, [83, 72, 65, 82, 83, 72, 48, 49])
    && Digits(s, 8, 2, 1)
    && Digits(s, 10, 2, n)
    && s[12..12 + n] == h.objectID
    && Digits(s, 12 + n, 4, h.stripeIdx)
    && Digits(s, 16 + n, 4, h.shardIdx)
    && Digits(s, 20 + n, 2, h.dataShards)
    && Digits(s, 22 + n, 2, h.parityShards)
    && Digits(s, 24 + n, 8, if h.stripeLen >= 0 then h.stripeLen else 0x1_0000_0000_0000_0000 + h.stripeLen)
    && Digits(s, 32 + n, 8, if h.dataLen >= 0 then h.dataLen else 0x1_0000_0000_0000_0000 + h.dataLen)
    && s[40 + n..72 + n] == h.checksum
  }

  /** A marker as the format has it: "SHAROBJ1", version 1, size, stripes, and the low 16 bits of the shard counts. */
  ghost predicate MarkerBytes(s: seq<byte>, m: ObjectMeta) {
    && |s| == 26
    && Begins(s, [83, 72, 65, 82, 79, 66, 74, 49])
    && Digits(s, 8, 2, 1)
    && Digits(s, 10, 8, if m.size >= 0 then m.size else 0x1_0000_0000_0000_0000 + m.size)
    && Digits(s, 18, 4, m.stripes)
    && Digits(s, 22, 2, m.params.dataShards % 0x1_0000)
    && Digits(s, 24, 2, m.params.parityShards % 0x1_0000)
  }

  lemma {:induction false} DigitOf(n: nat, w: nat, x: nat)
    requires x < w
    ensures ToInt(LittleEndian(n, w)[x]) == (n / Pow256(x)) % 256
    decreases w
  {
    hide ToInt, OfInt;
    if x == 0 {
      ToIntOfInt(n % 256);
    } else {
      DigitOf(n / 256, w - 1, x - 1);
      assert LittleEndian(n, w)[x] == LittleEndian(n / 256, w - 1)[x - 1];
      DivideTwice(n, 256, Pow256(x - 1));
    }
  }

  lemma DigitsOf(s: seq<byte>, at: nat, w: nat, n: nat)
    requires at + w <= |s| && s[at..at + w] == LittleEndian(n, w)
    ensures Digits(s, at, w, n)
  {
    hide ToInt, LittleEndian, Pow256;
    forall x | 0 <= x < w
      ensures ToInt(s[at + x]) == (n / Pow256(x)) % 256
    {
      DigitOf(n, w, x);
      assert s[at..at + w][x] == s[at + x];
    }
  }

  lemma TextBegins(s: seq<byte>, t: string, values: seq<nat>)
    requires |t| == |values| <= |s| && s[..|t|] == Text(t)
    requires forall x :: 0 <= x < |t| ==> t[x] as int == values[x] < 256
    ensures Begins(s, values)
  {
    hide ToInt, OfInt;
    forall x | 0 <= x < |t|
      ensures ToInt(s[x]) == values[x]
    {
      ToIntOfInt(values[x]);
      assert s[..|t|][x] == s[x] == Text(t)[x] == OfInt(t[x] as int % 256);
    }
  }

  lemma LayoutBytes(h: ShardHeader)
    requires |h.objectID| < 0x1_0000
    ensures ShardHeaderBytes(Layout(h), h)
  {
    hide LittleEndian, Digits, Begins, Text;
    var n, s := |h.objectID|, Layout(h);
    assert s[..8] == Text("SHARSH01");
    TextBegins(s, "SHARSH01", [83, 72, 65, 82, 83, 72, 48, 49]);
    assert s[8..10] == LittleEndian(1, 2);
    DigitsOf(s, 8, 2, 1);
    assert s[10..12] == LittleEndian(n, 2);
    DigitsOf(s, 10, 2, n);
    FieldsBytes(s, h);
  }

  lemma FieldsBytes(s: seq<byte>, h: ShardHeader)
    requires |h.objectID| < 0x1_0000 && s == Layout(h)
    ensures var n := |h.objectID|;
      && s[12..12 + n] == h.objectID
      && Digits(s, 12 + n, 4, h.stripeIdx) && Digits(s, 16 + n, 4, h.shardIdx)
      && Digits(s, 20 + n, 2, h.dataShards) && Digits(s, 22 + n, 2, h.parityShards)
      && Digits(s, 24 + n, 8, ToUnsigned(h.stripeLen)) && Digits(s, 32 + n, 8, ToUnsigned(h.dataLen))
      && s[40 + n..72 + n] == h.checksum
  {
    hide LittleEndian, Digits, Text, ToUnsigned;
    var n := |h.objectID|;
    assert s[12 + n..16 + n] == LittleEndian(h.stripeIdx, 4);
    DigitsOf(s, 12 + n, 4, h.stripeIdx);
    assert s[16 + n..20 + n] == LittleEndian(h.shardIdx, 4);
    DigitsOf(s, 16 + n, 4, h.shardIdx);
    assert s[20 + n..22 + n] == LittleEndian(h.dataShards, 2);
    DigitsOf(s, 20 + n, 2, h.dataShards);
    assert s[22 + n..24 + n] == LittleEndian(h.parityShards, 2);
    DigitsOf(s, 22 + n, 2, h.parityShards);
    assert s[24 + n..32 + n] == LittleEndian(ToUnsigned(h.stripeLen), 8);
    DigitsOf(s, 24 + n, 8, ToUnsigned(h.stripeLen));
    assert s[32 + n..40 + n] == LittleEndian(ToUnsigned(h.dataLen), 8);
    DigitsOf(s, 32 + n, 8, ToUnsigned(h.dataLen));
  }

  lemma MarkerLayoutBytes(m: ObjectMeta)
    ensures MarkerBytes(MarkerLayout(m), m)
  {
    hide LittleEndian, Digits, Begins, Text;
    var s := MarkerLayout(m);
    MarkerParts(OBJECT_MAGIC, VERSION, LittleEndian(ToUnsigned(m.size), 8), LittleEndian(m.stripes, 4),
                LittleEndian(m.params.dataShards % 0x1_0000, 2), LittleEndian(m.params.parityShards % 0x1_0000, 2));
    TextBegins(s, "SHAROBJ1", [83, 72, 65, 82, 79, 66, 74, 49]);
    DigitsOf(s, 8, 2, 1);
    DigitsOf(s, 10, 8, ToUnsigned(m.size));
    DigitsOf(s, 18, 4, m.stripes);
    DigitsOf(s, 22, 2, m.params.dataShards % 0x1_0000);
    DigitsOf(s, 24, 2, m.params.parityShards % 0x1_0000);
  }

  lemma MarkerParts(a: seq<byte>, b: seq<byte>, c: seq<byte>, d: seq<byte>, e: seq<byte>, f: seq<byte>)
    requires |a| == |c| == 8 && |d| == 4 && |b| == |e| == |f| == 2
    ensures var s := a + b + c + d + e + f;
      && |s| == 26 && s[..8] == a && s[8..8 + 2] == b && s[10..10 + 8] == c && s[18..18 + 4] == d
      && s[22..22 + 2] == e && s[24..24 + 2] == f
  {
  }

  lemma DigitsAre(s: seq<byte>, at: nat, w: nat, n: nat)
    requires Digits(s, at, w, n)
    ensures s[at..at + w] == LittleEndian(n, w)
  {
    hide ToInt, OfInt, LittleEndian, Pow256;
    forall x | 0 <= x < w
      ensures s[at + x] == LittleEndian(n, w)[x]
    {
      DigitOf(n, w, x);
      OfIntToInt(s[at + x]);
      OfIntToInt(LittleEndian(n, w)[x]);
      assert ToInt(s[at + x]) == (n / Pow256(x)) % 256;
    }
  }

  lemma TextIs(s: seq<byte>, t: string, values: seq<nat>)
    requires |t| == |values| && Begins(s, values)
    requires forall x :: 0 <= x < |t| ==> t[x] as int == values[x] < 256
    ensures |t| <= |s| && s[..|t|] == Text(t)
  {
    hide ToInt, OfInt;
    forall x | 0 <= x < |t|
      ensures s[..|t|][x] == Text(t)[x]
    {
      OfIntToInt(s[x]);
      assert ToInt(s[x]) == values[x];
    }
  }

  /** The format is exactly these bytes. */
  lemma LayoutExactly(h: ShardHeader, s: seq<byte>)
    requires |h.objectID| < 0x1_0000
    ensures s == Layout(h) <==> ShardHeaderBytes(s, h)
  {
    hide LittleEndian, Digits, Begins, Text;
    LayoutBytes(h);
    if ShardHeaderBytes(s, h) {
      var n := |h.objectID|;
      TextIs(s, "SHARSH01", [83, 72, 65, 82, 83, 72, 48, 49]);
      DigitsAre(s, 8, 2, 1);
      DigitsAre(s, 10, 2, n);
      DigitsAre(s, 12 + n, 4, h.stripeIdx);
      DigitsAre(s, 16 + n, 4, h.shardIdx);
      DigitsAre(s, 20 + n, 2, h.dataShards);
      DigitsAre(s, 22 + n, 2, h.parityShards);
      DigitsAre(s, 24 + n, 8, ToUnsigned(h.stripeLen));
      DigitsAre(s, 32 + n, 8, ToUnsigned(h.dataLen));
      FromParts(s, n);
    }
  }

  lemma FromParts(s: seq<byte>, n: nat)
    requires |s| == 72 + n
    ensures s == s[..8] + s[8..10] + s[10..12] + s[12..12 + n]
              + (s[12 + n..16 + n] + s[16 + n..20 + n] + s[20 + n..22 + n] + s[22 + n..24 + n]
                 + s[24 + n..32 + n] + s[32 + n..40 + n] + s[40 + n..72 + n])
  {
  }

  lemma MarkerLayoutExactly(m: ObjectMeta, s: seq<byte>)
    ensures s == MarkerLayout(m) <==> MarkerBytes(s, m)
  {
    hide LittleEndian, Digits, Begins, Text;
    MarkerLayoutBytes(m);
    if MarkerBytes(s, m) {
      TextIs(s, "SHAROBJ1", [83, 72, 65, 82, 79, 66, 74, 49]);
      DigitsAre(s, 8, 2, 1);
      DigitsAre(s, 10, 8, ToUnsigned(m.size));
      DigitsAre(s, 18, 4, m.stripes);
      DigitsAre(s, 22, 2, m.params.dataShards % 0x1_0000);
      DigitsAre(s, 24, 2, m.params.parityShards % 0x1_0000);
      assert s == s[..8] + s[8..10] + s[10..18] + s[18..22] + s[22..24] + s[24..26];
    }
  }

  // ----- The shard header format is a prefix code

  lemma FieldsRoundTrip(h: ShardHeader)
    ensures FieldsAt(h.objectID, Fields(h)) == h
  {
    hide LittleEndian, FromLittleEndian;
    Widths();
    IntegerRoundTrip(h.stripeIdx, 4);
    IntegerRoundTrip(h.shardIdx, 4);
    IntegerRoundTrip(h.dataShards, 2);
    IntegerRoundTrip(h.parityShards, 2);
    IntegerRoundTrip(ToUnsigned(h.stripeLen), 8);
    IntegerRoundTrip(ToUnsigned(h.dataLen), 8);
    var s := Fields(h);
    assert s[0..4] == LittleEndian(h.stripeIdx, 4);
    assert s[4..8] == LittleEndian(h.shardIdx, 4);
    assert s[8..10] == LittleEndian(h.dataShards, 2);
    assert s[10..12] == LittleEndian(h.parityShards, 2);
    assert s[12..20] == LittleEndian(ToUnsigned(h.stripeLen), 8);
    assert s[20..28] == LittleEndian(ToUnsigned(h.dataLen), 8);
    assert s[28..60] == h.checksum;
  }

  lemma FieldsAtRoundTrip(id: ObjectID, s: seq<byte>)
    requires |s| == 60
    ensures Fields(FieldsAt(id, s)) == s
  {
    hide LittleEndian, FromLittleEndian;
    BytesRoundTrip(s[0..4]);
    BytesRoundTrip(s[4..8]);
    BytesRoundTrip(s[8..10]);
    BytesRoundTrip(s[10..12]);
    BytesRoundTrip(s[12..20]);
    BytesRoundTrip(s[20..28]);
    assert s == s[0..4] + s[4..8] + s[8..10] + s[10..12] + s[12..20] + s[20..28] + s[28..60];
  }

  /** Decoding an encoded header followed by any payload gives back the header and exactly the payload. */
  lemma DecodeEncoded(h: ShardHeader, payload: seq<byte>)
    requires |h.objectID| < 0x1_0000
    ensures Parsed(Layout(h) + payload) == Ok((h, payload))
  {
    hide LittleEndian, FromLittleEndian, Fields, FieldsAt;
    var n, s := |h.objectID|, Layout(h) + payload;
    Widths();
    IntegerRoundTrip(n, 2);
    assert s[..8] == SHARD_MAGIC;
    assert s[8..10] == VERSION;
    assert s[10..12] == LittleEndian(n, 2);
    assert s[12..12 + n] == h.objectID;
    assert s[12 + n..72 + n] == Fields(h);
    assert s[72 + n..] == payload;
    FieldsRoundTrip(h);
  }

  /** Whatever decodes is the encoding of what it decodes to, followed by the rest. */
  lemma EncodeDecoded(s: seq<byte>)
    requires Parsed(s).Ok?
    ensures var (h, rest) := Parsed(s).value;
      |h.objectID| < 0x1_0000 && Layout(h) + rest == s
  {
    hide LittleEndian, FromLittleEndian, Fields, FieldsAt;
    var n := ReadUnsigned(s[10..12]);
    BytesRoundTrip(s[10..12]);
    IdOfFieldsAt(s[12..12 + n], s[12 + n..72 + n]);
    FieldsAtRoundTrip(s[12..12 + n], s[12 + n..72 + n]);
    assert s == s[..8] + s[8..10] + s[10..12] + s[12..12 + n] + s[12 + n..72 + n] + s[72 + n..];
  }

  /** What decodes has a header's bytes in front. */
  lemma DecodedBytes(s: seq<byte>)
    ensures match Parsed(s)
      case Ok((h, rest)) =>
        var n := 72 + |h.objectID|;
        n <= |s| && ShardHeaderBytes(s[..n], h) && rest == s[n..]
      case Err(_) => true
  {
    if Parsed(s).Ok? {
      hide ShardHeaderBytes, Parsed;
      var (h, rest) := Parsed(s).value;
      EncodeDecoded(s);
      LayoutBytes(h);
      var n := 72 + |h.objectID|;
      assert s[..n] == Layout(h) && s[n..] == rest;
    }
  }

  lemma IdOfFieldsAt(id: ObjectID, s: seq<byte>)
    requires |s| == 60
    ensures FieldsAt(id, s).objectID == id
  {
  }

  // ----- Encoder and decoder

  /** Appends the fields of the header one by one. */
  method EncodeShardHeader(h: ShardHeader) returns (r: Result<seq<byte>>)
    ensures r == if Encodable(h) then Ok(Layout(h)) else Err(BadHeader)
    ensures r.Ok? <==> h.objectID != [] && |h.objectID| <= 65535 && h.dataShards >= 1 && h.parityShards >= 1
    ensures r.Ok? ==> ShardHeaderBytes(r.value, h)
  {
    hide LittleEndian, ShardHeaderBytes;
    if h.objectID == [] {
      return Err(BadHeader);
    }
    if h.dataShards < 1 || h.parityShards < 1 {
      return Err(BadHeader);
    }
    if |h.objectID| > 65535 {
      return Err(BadHeader);
    }
    var buf := SHARD_MAGIC;
    buf := buf + VERSION;
    buf := buf + LittleEndian(|h.objectID|, 2);
    buf := buf + h.objectID;
    ghost var front := buf;
    buf := buf + LittleEndian(h.stripeIdx, 4);
    buf := buf + LittleEndian(h.shardIdx, 4);
    buf := buf + LittleEndian(h.dataShards, 2);
    buf := buf + LittleEndian(h.parityShards, 2);
    buf := buf + LittleEndian(ToUnsigned(h.stripeLen), 8);
    buf := buf + LittleEndian(ToUnsigned(h.dataLen), 8);
    buf := buf + h.checksum;
    assert buf == front + Fields(h);
    LayoutBytes(h);
    return Ok(buf);
  }

  /** A reader over the bytes of a file. */
  class ByteReader {
    const data: seq<byte>
    var pos: nat

    ghost predicate Valid()
      reads this
    {
      pos <= |data|
    }

    ghost function Rest(): seq<byte>
      requires Valid()
      reads this
    {
      data[pos..]
    }

    constructor (data: seq<byte>)
      ensures Valid() && Rest() == data
    {
      this.data := data;
      pos := 0;
    }

    /** Reads exactly n bytes, or reports a short read with the input used up. */
    method ReadFull(n: nat) returns (r: Result<seq<byte>>)
      requires Valid()
      modifies this
      ensures Valid()
      ensures n <= |old(Rest())| ==> r == Ok(old(Rest())[..n]) && Rest() == old(Rest())[n..]
      ensures n > |old(Rest())| ==> r == Err(BadHeader) && Rest() == []
    {
      if |data| - pos < n {
        pos := |data|;
        return Err(BadHeader);
      }
      r := Ok(data[pos..pos + n]);
      assert data[pos..][..n] == data[pos..pos + n] && data[pos..][n..] == data[pos + n..];
      pos := pos + n;
    }

    /** Reads at most n bytes, as a limit reader read to its end does; a negative limit reads nothing. */
    method ReadLimited(n: int) returns (s: seq<byte>)
      requires Valid()
      modifies this
      ensures Valid()
      ensures s == if n <= 0 then [] else if n <= |old(Rest())| then old(Rest())[..n] else old(Rest())
    {
      if n <= 0 {
        return [];
      }
      var end := if n <= |data| - pos then pos + n else |data|;
      s := data[pos..end];
      pos := end;
    }
  }

  /** Reads the fields of a header one by one, stopping at the first that is short or wrong. */
  method DecodeShardHeader(r: ByteReader) returns (res: Result<ShardHeader>)
    requires r.Valid()
    modifies r
    ensures r.Valid()
    ensures match Parsed(old(r.Rest()))
      case Ok((h, rest)) => res == Ok(h) && r.Rest() == rest
      case Err(e) => res == Err(e)
    ensures res.Ok? ==>
      var s, n := old(r.Rest()), 72 + |res.value.objectID|;
      n <= |s| && ShardHeaderBytes(s[..n], res.value) && r.Rest() == s[n..]
  {
    hide LittleEndian, FromLittleEndian, ShardHeaderBytes, FieldsAt;
    ghost var s := r.Rest();
    DecodedBytes(s);
    var id := DecodeFront(r);
    if id.Err? {
      return Err(id.error);
    }
    ghost var n := |id.value|;
    res := DecodeFields(r, id.value);
    assert |s| >= 72 + n ==> s[12 + n..][..60] == s[12 + n..72 + n] && s[12 + n..][60..] == s[72 + n..];
  }

  /** Reads up to the object id. */
  method DecodeFront(r: ByteReader) returns (res: Result<ObjectID>)
    requires r.Valid()
    modifies r
    ensures r.Valid()
    ensures var s := old(r.Rest());
      if |s| < 12 || s[..8] != SHARD_MAGIC || s[8..10] != VERSION || |s| < 12 + ReadUnsigned(s[10..12]) then res == Err(BadHeader)
      else var n := ReadUnsigned(s[10..12]); res == Ok(s[12..12 + n]) && r.Rest() == s[12 + n..]
  {
    hide LittleEndian, FromLittleEndian;
    ghost var s := r.Rest();
    var magic := r.ReadFull(8);
    if magic.Err? || magic.value != SHARD_MAGIC {
      return Err(BadHeader);
    }
    var version := r.ReadFull(2);
    if version.Err? || version.value != VERSION {
      assert r.Rest() == [] || s[8..10] != VERSION;
      return Err(BadHeader);
    }
    var length := r.ReadFull(2);
    if length.Err? {
      return Err(BadHeader);
    }
    assert length.value == s[10..12];
    var n := ReadUnsigned(length.value);
    res := r.ReadFull(n);
    if res.Ok? {
      assert res.value == s[12..12 + n] && r.Rest() == s[12 + n..];
    }
  }

  /** Reads the fixed-width fields after the object id. */
  method DecodeFields(r: ByteReader, id: ObjectID) returns (res: Result<ShardHeader>)
    requires r.Valid()
    modifies r
    ensures r.Valid()
    ensures |old(r.Rest())| >= 60 ==>
      res == Ok(FieldsAt(id, old(r.Rest())[..60])) && r.Rest() == old(r.Rest())[60..]
    ensures |old(r.Rest())| < 60 ==> res == Err(BadHeader)
  {
    hide LittleEndian, FromLittleEndian;
    ghost var s := r.Rest();
    var widths, parts := [4, 4, 2, 2, 8, 8, 32], [];
    ghost var at := 0;
    for i := 0 to 7
      invariant r.Valid() && |parts| == i
      invariant at == [0, 4, 8, 10, 12, 20, 28, 60][i]
      invariant at <= |s| && r.Rest() == s[at..]
      invariant i > 0 ==> parts[0] == s[0..4]
      invariant i > 1 ==> parts[1] == s[4..8]
      invariant i > 2 ==> parts[2] == s[8..10]
      invariant i > 3 ==> parts[3] == s[10..12]
      invariant i > 4 ==> parts[4] == s[12..20]
      invariant i > 5 ==> parts[5] == s[20..28]
      invariant i > 6 ==> parts[6] == s[28..60]
    {
      var part := r.ReadFull(widths[i]);
      if part.Err? {
        return Err(BadHeader);
      }
      assert part.value == s[at..at + widths[i]];
      parts := parts + [part.value];
      at := at + widths[i];
    }
    var h := ShardHeader(
      id, ReadUnsigned(parts[0]), ReadUnsigned(parts[1]), ReadUnsigned(parts[2]), ReadUnsigned(parts[3]),
      ToSigned(ReadUnsigned(parts[4])), ToSigned(ReadUnsigned(parts[5])), parts[6]);
    ghost var front := s[..60];
    assert front[0..4] == s[0..4] && front[4..8] == s[4..8] && front[8..10] == s[8..10] && front[10..12] == s[10..12]
      && front[12..20] == s[12..20] && front[20..28] == s[20..28] && front[28..60] == s[28..60];
    return Ok(h);
  }

  // ----- Object markers

  /** The bytes of a marker; shard counts keep only their low 16 bits. */
  function MarkerLayout(m: ObjectMeta): (s: seq<byte>)
    ensures |s| == 26
  {
    OBJECT_MAGIC + VERSION + LittleEndian(ToUnsigned(m.size), 8) + LittleEndian(m.stripes, 4)
    + LittleEndian(m.params.dataShards % 0x1_0000, 2) + LittleEndian(m.params.parityShards % 0x1_0000, 2)
  }

  /** A marker as it comes back from disk. */
  function OnDisk(m: ObjectMeta): ObjectMeta {
    m.(params := Params(m.params.dataShards % 0x1_0000, m.params.parityShards % 0x1_0000))
  }

  method EncodeObjectMeta(m: ObjectMeta) returns (buf: seq<byte>)
    ensures buf == MarkerLayout(m) && MarkerBytes(buf, m)
  {
    hide LittleEndian, MarkerBytes;
    MarkerLayoutBytes(m);
    buf := OBJECT_MAGIC;
    buf := buf + VERSION;
    buf := buf + LittleEndian(ToUnsigned(m.size), 8);
    buf := buf + LittleEndian(m.stripes, 4);
    buf := buf + LittleEndian(m.params.dataShards % 0x1_0000, 2);
    buf := buf + LittleEndian(m.params.parityShards % 0x1_0000, 2);
  }

  /** A successful decode read the layout of the marker it returns; an encoded marker always decodes. */
  method DecodeObjectMeta(b: seq<byte>) returns (res: Result<ObjectMeta>)
    ensures res.Ok? <==> exists m :: MarkerLayout(m) <= b
    ensures res.Ok? ==> MarkerLayout(res.value) <= b && OnDisk(res.value) == res.value
    ensures res.Ok? ==> |b| >= 26 && MarkerBytes(b[..26], res.value)
    ensures res.Ok? ==> res.value.params.dataShards < 0x1_0000 && res.value.params.parityShards < 0x1_0000
    ensures forall m :: MarkerLayout(m) <= b ==> res == Ok(OnDisk(m))
  {
    hide LittleEndian, FromLittleEndian, MarkerLayout, MarkerBytes;
    forall m | MarkerLayout(m) <= b
      ensures MarkerParsed(b) == Ok(OnDisk(m))
    {
      ParseMarkerLayout(m, b);
    }
    if MarkerParsed(b).Ok? {
      MarkerLayoutParsed(b);
      MarkerLayoutBytes(MarkerParsed(b).value);
      assert b[..26] == MarkerLayout(MarkerParsed(b).value);
    }
    var r := new ByteReader(b);
    var magic := r.ReadFull(8);
    if magic.Err? || magic.value != OBJECT_MAGIC {
      return Err(BadHeader);
    }
    var version := r.ReadFull(2);
    if version.Err? || version.value != VERSION {
      assert r.Rest() == [] || b[8..10] != VERSION;
      return Err(BadHeader);
    }
    var size := r.ReadFull(8);
    if size.Err? {
      return Err(BadHeader);
    }
    assert size.value == b[10..18];
    var stripes := r.ReadFull(4);
    if stripes.Err? {
      return Err(BadHeader);
    }
    assert stripes.value == b[18..22];
    var k := r.ReadFull(2);
    if k.Err? {
      return Err(BadHeader);
    }
    assert k.value == b[22..24];
    var parity := r.ReadFull(2);
    if parity.Err? {
      return Err(BadHeader);
    }
    assert parity.value == b[24..26];
    return Ok(ObjectMeta(ToSigned(ReadUnsigned(size.value)), ReadUnsigned(stripes.value),
                         Params(ReadUnsigned(k.value), ReadUnsigned(parity.value))));
  }

  /** A marker read by offsets. */
  function MarkerParsed(b: seq<byte>): Result<ObjectMeta> {
    if |b| < 26 || b[..8] != OBJECT_MAGIC || b[8..10] != VERSION then Err(BadHeader)
    else Ok(ObjectMeta(ToSigned(ReadUnsigned(b[10..18])), ReadUnsigned(b[18..22]),
                       Params(ReadUnsigned(b[22..24]), ReadUnsigned(b[24..26]))))
  }

  lemma ParseMarkerLayout(m: ObjectMeta, b: seq<byte>)
    requires MarkerLayout(m) <= b
    ensures MarkerParsed(b) == Ok(OnDisk(m))
  {
    hide LittleEndian, FromLittleEndian;
    Widths();
    IntegerRoundTrip(ToUnsigned(m.size), 8);
    IntegerRoundTrip(m.stripes, 4);
    IntegerRoundTrip(m.params.dataShards % 0x1_0000, 2);
    IntegerRoundTrip(m.params.parityShards % 0x1_0000, 2);
    var s := MarkerLayout(m);
    assert b[..26] == s;
    assert s[..8] == OBJECT_MAGIC == b[..8];
    assert s[8..10] == VERSION == b[8..10];
    assert s[10..18] == LittleEndian(ToUnsigned(m.size), 8) == b[10..18];
    assert s[18..22] == LittleEndian(m.stripes, 4) == b[18..22];
    assert s[22..24] == LittleEndian(m.params.dataShards % 0x1_0000, 2) == b[22..24];
    assert s[24..26] == LittleEndian(m.params.parityShards % 0x1_0000, 2) == b[24..26];
  }

  lemma MarkerLayoutParsed(b: seq<byte>)
    requires MarkerParsed(b).Ok?
    ensures MarkerLayout(MarkerParsed(b).value) <= b && OnDisk(MarkerParsed(b).value) == MarkerParsed(b).value
  {
    hide LittleEndian, FromLittleEndian;
    BytesRoundTrip(b[10..18]);
    BytesRoundTrip(b[18..22]);
    BytesRoundTrip(b[22..24]);
    BytesRoundTrip(b[24..26]);
    assert b[..26] == b[..8] + b[8..10] + b[10..18] + b[18..22] + b[22..24] + b[24..26];
  }
}
