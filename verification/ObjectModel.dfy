/** What the object store means on the contents of a shard store. */
module ObjectModel {
  import opened Bytes
  import opened Types
  import opened ReedSolomon
  import opened ErasureCoding
  import opened Listing
  import opened StoreModel

  const MAX_U32 := 0x1_0000_0000

  /** How a writer, or a reader, is set up: the checksum, which is the same for all, and the flags of its process. */
  datatype Config = Config(hash: Hash, params: Params, stripeSize: i64) {
    predicate Valid() { params.Valid() && stripeSize > 0 }
  }

  // ----- Stripes

  /** How many stripes an object of n bytes has. */
  function StripeCount(n: nat, size: nat): nat
    requires size > 0
  {
    CeilDiv(n, size)
  }

  /** The count is the one number of stripes that reaches n and no further. */
  lemma CountBounds(n: nat, size: nat)
    requires size > 0
    ensures var t := StripeCount(n, size);
      n <= Offset(t, size) && (t == 0 <==> n == 0) && (t > 0 ==> Offset(t - 1, size) < n)
  {
    CeilDivBounds(n, size);
  }

  /** After stripe t of an object of n bytes, either the object is used up or stripe t was full. */
  lemma AfterStripe(t: nat, n: nat, size: nat)
    requires size > 0 && Offset(t, size) < n
    ensures n - Offset(t, size) <= size ==> StripeCount(n, size) == t + 1
    ensures n - Offset(t, size) >= size ==> Offset(t + 1, size) == Offset(t, size) + size <= n
  {
    OffsetShift(t, size);
    if n - Offset(t, size) <= size {
      CeilDivUnique(n, size, t + 1);
    }
  }

  /** How many full pieces n of something hold. */
  function FullCount(n: nat, size: nat): nat
    requires size > 0
    decreases n
  {
    if n < size then 0 else 1 + FullCount(n - size, size)
  }

  /** An input that ends within stripe t holds exactly t full stripes. */
  lemma {:induction false} FullStripes(t: nat, len: nat, size: nat)
    requires size > 0 && Offset(t, size) <= len < Offset(t, size) + size
    ensures FullCount(len, size) == t
    decreases t
  {
    if t > 0 {
      FullStripes(t - 1, len - size, size);
    }
  }

  /** Stripe i of the data; every stripe but the last is full. */
  function Cut(data: seq<byte>, size: nat, i: nat): (s: seq<byte>)
    ensures |s| <= size
  {
    var lo := Offset(i, size);
    if lo >= |data| then [] else if lo + size <= |data| then data[lo..lo + size] else data[lo..]
  }

  /** The data a put of n bytes takes from its input, all of it if the input is short. */
  function Carried(input: seq<byte>, n: nat): seq<byte> { if n <= |input| then input[..n] else input }

  /** How many stripes of an object of the given size an input of n bytes has in full. */
  function Available(n: nat, size: nat, stripeSize: nat): nat
    requires stripeSize > 0
  {
    if size <= n then StripeCount(size, stripeSize) else FullCount(n, stripeSize)
  }

  lemma AvailableAll(n: nat, size: nat, stripeSize: nat)
    requires stripeSize > 0 && size <= n
    ensures Available(n, size, stripeSize) == StripeCount(size, stripeSize)
  {
  }

  /** Whether the input has stripe t, by its first byte and its length. */
  lemma AvailableAt(n: nat, size: nat, stripeSize: nat, t: nat)
    requires stripeSize > 0 && Offset(t, stripeSize) < size && Offset(t, stripeSize) <= n
    ensures var len := Min(stripeSize, size - Offset(t, stripeSize));
      if n - Offset(t, stripeSize) < len then n < size && Available(n, size, stripeSize) == FullCount(n, stripeSize) == t
      else Available(n, size, stripeSize) > t
  {
    hide StripeCount, FullCount, Offset;
    CountBounds(size, stripeSize);
    FullBounds(n, stripeSize);
    OffsetShift(t, stripeSize);
    if n - Offset(t, stripeSize) < Min(stripeSize, size - Offset(t, stripeSize)) {
      FullStripes(t, n, stripeSize);
    } else if size <= n {
      if StripeCount(size, stripeSize) <= t {
        OffsetMonotone(StripeCount(size, stripeSize), t, stripeSize);
      }
    } else if FullCount(n, stripeSize) <= t {
      OffsetMonotone(FullCount(n, stripeSize) + 1, t + 1, stripeSize);
    }
  }

  lemma {:induction false} FullBounds(n: nat, size: nat)
    requires size > 0
    ensures Offset(FullCount(n, size), size) <= n < Offset(FullCount(n, size) + 1, size)
    decreases n
  {
    if n >= size {
      FullBounds(n - size, size);
    } else {
      assert Offset(1, size) == size;
    }
  }

  /** The next stripe's worth of an input is the next stripe of the data it carries. */
  lemma CutOfInput(input: seq<byte>, n: nat, size: nat, t: nat)
    requires size > 0 && Offset(t, size) < n && Offset(t, size) + Min(size, n - Offset(t, size)) <= |input|
    ensures Cut(Carried(input, n), size, t) == input[Offset(t, size)..][..Min(size, n - Offset(t, size))]
  {
    hide Offset;
    var lo, m, d := Offset(t, size), Min(size, n - Offset(t, size)), Carried(input, n);
    assert lo + m <= |d| && d[lo..lo + m] == input[lo..lo + m] == input[lo..][..m];
    assert lo + size > |d| ==> lo + m == |d| && d[lo..] == d[lo..lo + m];
  }

  function Min(a: nat, b: nat): nat { if a <= b then a else b }

  // ----- Writing

  function Unstamped(): Digest { seq(32, _ => ZERO) }

  /** The header given to a shard, its checksum still to be stamped. */
  function HeaderFor(p: Params, id: ObjectID, i: u32, j: u32, stripeLen: i64, dataLen: i64): ShardHeader
    requires p.Valid()
  {
    ShardHeader(id, i, j, p.dataShards, p.parityShards, stripeLen, dataLen, Unstamped())
  }

  /** Shard j of a stripe as it is stored. */
  function Stored(c: Config, id: ObjectID, i: u32, j: u32, stripe: seq<byte>): StoredShard
    requires c.Valid() && |stripe| <= c.stripeSize
  {
    var data := Shard(stripe, c.params.dataShards, j);
    ShardLengthFits(|stripe|, c.params.dataShards);
    StoredShard(HeaderFor(c.params, id, i, j, |stripe|, |data|).(checksum := c.hash(data)), data)
  }

  lemma {:induction false} ShardLengthFits(n: nat, k: nat)
    requires k >= 1
    ensures SplitSize(n, k) <= n
    decreases n
  {
    if n > k {
      ShardLengthFits(n - k, k);
    }
  }

  /** The store after the first j shards of a stripe have been put. */
  function PutShards(c: Config, st: StoreState, id: ObjectID, i: u32, stripe: seq<byte>, j: nat): StoreState
    requires c.Valid() && |stripe| <= c.stripeSize && j <= c.params.ShardCount()
    decreases j
  {
    if j == 0 then st
    else
      var before := PutShards(c, st, id, i, stripe, j - 1);
      before.(shards := before.shards[ShardKey(id, i, j - 1) := Stored(c, id, i, j - 1, stripe)])
  }

  lemma PutOneShard(c: Config, st: StoreState, id: ObjectID, i: u32, stripe: seq<byte>, j: nat)
    requires c.Valid() && |stripe| <= c.stripeSize && j < c.params.ShardCount()
    ensures SplitSize(|stripe|, c.params.dataShards) <= |stripe|
    ensures var data := Shard(stripe, c.params.dataShards, j);
      PutShards(c, st, id, i, stripe, j + 1) ==
      WithShard(c.hash, PutShards(c, st, id, i, stripe, j), ShardKey(id, i, j),
                HeaderFor(c.params, id, i, j, |stripe|, |data|), data)
  {
    ShardLengthFits(|stripe|, c.params.dataShards);
    hide SplitSize, Shard;
  }

  lemma PutNoShard(c: Config, st: StoreState, id: ObjectID, i: u32, stripe: seq<byte>)
    requires c.Valid() && |stripe| <= c.stripeSize
    ensures PutShards(c, st, id, i, stripe, 0) == st
  {
  }

  /** The store after the first t stripes of the data have been put; the stripe counter is 32 bits wide. */
  function PutStripes(c: Config, st: StoreState, id: ObjectID, data: seq<byte>, t: nat): StoreState
    requires c.Valid()
    decreases t
  {
    if t == 0 then st
    else
      PutShards(c, PutStripes(c, st, id, data, t - 1), id, (t - 1) % MAX_U32, Cut(data, c.stripeSize, t - 1),
                c.params.ShardCount())
  }

  lemma PutNothing(c: Config, st: StoreState, id: ObjectID, data: seq<byte>)
    requires c.Valid()
    ensures PutStripes(c, st, id, data, 0) == st
  {
  }

  lemma PutOneMore(c: Config, st: StoreState, id: ObjectID, data: seq<byte>, t: nat)
    requires c.Valid()
    ensures PutStripes(c, st, id, data, t + 1) ==
      PutShards(c, PutStripes(c, st, id, data, t), id, t % MAX_U32, Cut(data, c.stripeSize, t), c.params.ShardCount())
  {
  }

  /** The store after the first n shards of an object have been put, in their order. */
  function PutPart(c: Config, st: StoreState, id: ObjectID, data: seq<byte>, n: nat): StoreState
    requires c.Valid()
  {
    var t := FullCount(n, c.params.ShardCount());
    FullBounds(n, c.params.ShardCount());
    PutShards(c, PutStripes(c, st, id, data, t), id, t % MAX_U32, Cut(data, c.stripeSize, t),
              n - Offset(t, c.params.ShardCount()))
  }

  /** Where stripe t has got to j shards. */
  lemma PutPartIs(c: Config, st: StoreState, id: ObjectID, data: seq<byte>, t: nat, j: nat)
    requires c.Valid() && j < c.params.ShardCount()
    ensures PutPart(c, st, id, data, Offset(t, c.params.ShardCount()) + j) ==
      PutShards(c, PutStripes(c, st, id, data, t), id, t % MAX_U32, Cut(data, c.stripeSize, t), j)
  {
    hide FullCount, Offset, PutShards, PutStripes, Cut;
    FullStripes(t, Offset(t, c.params.ShardCount()) + j, c.params.ShardCount());
  }

  /** Below the limit nothing wraps. */
  lemma NoWrap(n: nat)
    requires n < MAX_U32
    ensures n % MAX_U32 == n
  {
  }

  /** Counting up wraps as the count does. */
  lemma WrapNext(t: nat)
    ensures (t % MAX_U32 + 1) % MAX_U32 == (t + 1) % MAX_U32
  {
  }

  function MetaOf(c: Config, n: i64): ObjectMeta
    requires c.Valid() && n >= 0
  {
    ObjectMeta(n, StripeCount(n, c.stripeSize) % MAX_U32, c.params)
  }

  /** The store after a whole object has been put. */
  function PutAll(c: Config, st: StoreState, id: ObjectID, data: seq<byte>): StoreState
    requires c.Valid() && |data| < 0x8000_0000_0000_0000
  {
    WithMarker(PutStripes(c, st, id, data, StripeCount(|data|, c.stripeSize)), id, MetaOf(c, |data|))
  }

  /** The store after an object has been deleted; the empty id stands for every object's shards. */
  function DeleteAll(st: StoreState, id: ObjectID): StoreState {
    StoreState(map k | k in st.shards && !(id == [] || k.objectID == id) :: st.shards[k], st.markers - {id})
  }

  // ----- Reading one stripe

  function Read(c: Config, st: StoreState, id: ObjectID, i: u32, j: u32): Result<StoredShard> {
    Lookup(c.hash, st, ShardKey(id, i, j))
  }

  /** The payloads of the valid shards among the first n of a stripe; the others are empty. */
  function Gathered(c: Config, st: StoreState, id: ObjectID, i: u32, n: nat): (shards: seq<seq<byte>>)
    requires n < MAX_U32
    ensures |shards| == n
  {
    seq(n, j requires 0 <= j < n => var r := Read(c, st, id, i, j); if r.Ok? then r.value.data else [])
  }

  /** How many of the first n shards of a stripe are valid. */
  function ValidCount(c: Config, st: StoreState, id: ObjectID, i: u32, n: nat): (v: nat)
    requires n < MAX_U32
    ensures v <= n
    decreases n
  {
    if n == 0 then 0 else ValidCount(c, st, id, i, n - 1) + if Read(c, st, id, i, n - 1).Ok? then 1 else 0
  }

  /** The stripe length in the header of the last valid shard among the first n, or 0. */
  function LengthSeen(c: Config, st: StoreState, id: ObjectID, i: u32, n: nat): i64
    requires n < MAX_U32
    decreases n
  {
    if n == 0 then 0
    else
      var r := Read(c, st, id, i, n - 1);
      if r.Ok? then r.value.h.stripeLen else LengthSeen(c, st, id, i, n - 1)
  }

  lemma NoneGathered(c: Config, st: StoreState, id: ObjectID, i: u32)
    ensures ValidCount(c, st, id, i, 0) == 0 && LengthSeen(c, st, id, i, 0) == 0
  {
  }

  /** What the next shard of a stripe adds to what has been gathered. */
  lemma OneMoreGathered(c: Config, st: StoreState, id: ObjectID, i: u32, n: nat, total: nat)
    requires n < total < MAX_U32
    ensures match Lookup(c.hash, st, ShardKey(id, i, n))
      case Ok(s) =>
        && Gathered(c, st, id, i, total)[n] == s.data
        && ValidCount(c, st, id, i, n + 1) == ValidCount(c, st, id, i, n) + 1
        && LengthSeen(c, st, id, i, n + 1) == s.h.stripeLen
      case Err(_) =>
        && Gathered(c, st, id, i, total)[n] == []
        && ValidCount(c, st, id, i, n + 1) == ValidCount(c, st, id, i, n)
        && LengthSeen(c, st, id, i, n + 1) == LengthSeen(c, st, id, i, n)
  {
  }

  /** What loading a stripe gives. */
  function StripeRead(c: Config, st: StoreState, id: ObjectID, i: u32): Result<seq<byte>>
    requires c.Valid()
  {
    var total := c.params.ShardCount();
    var shards, valid, length :=
      Gathered(c, st, id, i, total), ValidCount(c, st, id, i, total), LengthSeen(c, st, id, i, total);
    if valid < c.params.dataShards then Err(Unrecoverable)
    else
      match if valid < total then Reconstructed(shards, c.params) else Ok(shards)
      case Err(e) => Err(e)
      case Ok(full) => Joined(full, c.params, if length < 0 then 0 else length)
  }

  /** Loading the stripe does not come upon a negative length to allocate, where the code panics. */
  predicate Loadable(c: Config, st: StoreState, id: ObjectID, i: u32)
    requires c.Valid()
  {
    var total := c.params.ShardCount();
    var valid := ValidCount(c, st, id, i, total);
    valid >= c.params.dataShards && (valid < total ==> Reconstructed(Gathered(c, st, id, i, total), c.params).Ok?) ==>
      LengthSeen(c, st, id, i, total) >= 0
  }

  // ----- Opening

  /** Two's complement wrap-around at 64 bits. */
  function Wrap64(n: int): i64 {
    (n + 0x8000_0000_0000_0000) % 0x1_0000_0000_0000_0000 - 0x8000_0000_0000_0000
  }

  /** The length in the first valid header of a stripe, from shard j on; the parameters need not be valid. */
  function FirstLength(c: Config, st: StoreState, id: ObjectID, i: u32, j: nat): Result<i64>
    decreases c.params.ShardCount() - j
  {
    if j >= c.params.ShardCount() then Err(Unrecoverable)
    else
      var r := Read(c, st, id, i, j % MAX_U32);
      if r.Ok? then Ok(r.value.h.stripeLen) else FirstLength(c, st, id, i, j + 1)
  }

  ghost predicate IsMaxStripe(keys: set<ShardKey>, mx: u32) {
    (exists k :: k in keys && k.stripeIdx == mx) && forall k :: k in keys ==> k.stripeIdx <= mx
  }

  lemma {:induction false} HasMaxStripe(keys: set<ShardKey>)
    requires keys != {}
    ensures exists mx: u32 :: IsMaxStripe(keys, mx)
    decreases |keys|
  {
    var k :| k in keys;
    var rest := keys - {k};
    if rest == {} {
      assert keys == {k};
      assert IsMaxStripe(keys, k.stripeIdx);
    } else {
      HasMaxStripe(rest);
      var mx: u32 :| IsMaxStripe(rest, mx);
      assert keys == rest + {k};
      var high := if mx < k.stripeIdx then k.stripeIdx else mx;
      var top :| top in rest && top.stripeIdx == mx;
      assert IsMaxStripe(keys, high) by {
        assert (if mx < k.stripeIdx then k else top) in keys;
      }
    }
  }

  /** The highest stripe index among some keys. */
  ghost function MaxStripe(keys: set<ShardKey>): (mx: u32)
    requires keys != {}
    ensures IsMaxStripe(keys, mx)
  {
    HasMaxStripe(keys);
    var mx: u32 :| IsMaxStripe(keys, mx);
    mx
  }

  datatype Opened = Empty(size: i64) | Stream(total: u32, size: i64)

  /** Opening does not come to make an encoder of invalid parameters, where the code panics. */
  ghost predicate Openable(c: Config, st: StoreState, id: ObjectID) {
    c.params.Valid() || (var keys := KeysOf(st.shards.Keys, id); keys == {} || FirstLength(c, st, id, MaxStripe(keys), 0).Err?)
  }

  /** What opening an object gives: the listing decides, the marker only when nothing is listed. */
  ghost function Open(c: Config, st: StoreState, id: ObjectID): Result<Opened>
    requires Openable(c, st, id)
  {
    var keys := KeysOf(st.shards.Keys, id);
    if keys == {} then
      match MarkerOf(st, id)
      case Ok(m) => Ok(Empty(m.size))
      case Err(e) => Err(e)
    else
      var mx := MaxStripe(keys);
      match FirstLength(c, st, id, mx, 0)
      case Ok(length) => Ok(Stream((mx + 1) % MAX_U32, Wrap64(Wrap64(mx * c.stripeSize) + length)))
      case Err(e) => Err(e)
  }

  // ----- Streaming

  /** Where a reader stands: its stripe, what it has buffered of it, and how much of that has been handed out. */
  datatype Cursor = Cursor(stripe: u32, buf: seq<byte>, off: nat) {
    predicate Valid() { if buf == [] then off == 0 else off < |buf| }
  }

  const START := Cursor(0, [], 0)

  datatype Status = More | Eof | Failed(error: Error)

  datatype Step = Step(next: Cursor, out: seq<byte>, status: Status)

  /** One call of Read with a buffer of n bytes, on the store as the call finds it. */
  function ReadStep(c: Config, st: StoreState, id: ObjectID, total: u32, at: Cursor, n: nat): (step: Step)
    requires c.Valid() && at.Valid()
    ensures step.next.Valid()
  {
    if at.stripe >= total then Step(at, [], Eof)
    else if at.buf != [] then HandOut(at, n)
    else
      match StripeRead(c, st, id, at.stripe)
      case Err(e) => Step(at, [], Failed(e))
      case Ok(s) => if s == [] then Step(NextStripe(at), [], Eof) else HandOut(Cursor(at.stripe, s, 0), n)
  }

  /** Hands out what fits of the buffered stripe, whatever has become of the store since it was loaded. */
  function HandOut(at: Cursor, n: nat): (step: Step)
    requires at.off < |at.buf|
    ensures step.next.Valid() && step.status == More
  {
    var m := Min(n, |at.buf| - at.off);
    Step(if at.off + m == |at.buf| then NextStripe(at) else at.(off := at.off + m), at.buf[at.off..at.off + m], More)
  }

  function NextStripe(at: Cursor): Cursor { Cursor((at.stripe + 1) % MAX_U32, [], 0) }
}
