/** Which shard a put leaves under which key. */
module Placement {
  import opened Bytes
  import opened Types
  import opened ReedSolomon
  import opened StoreModel
  import opened ObjectModel

  /** Both stores hold the same under a key. */
  ghost predicate SameAt(s: StoreState, t: StoreState, key: ShardKey) {
    (key in s.shards <==> key in t.shards) && (key in s.shards ==> s.shards[key] == t.shards[key])
  }

  /** Shard (i, j) of the data as it is stored. */
  function Ideal(c: Config, id: ObjectID, data: seq<byte>, i: u32, j: u32): StoredShard
    requires c.Valid()
  {
    Stored(c, id, i, j, Cut(data, c.stripeSize, i))
  }

  lemma {:induction false} PutShardsAt(c: Config, st: StoreState, id: ObjectID, i: u32, stripe: seq<byte>, j: nat, key: ShardKey)
    requires c.Valid() && |stripe| <= c.stripeSize && j <= c.params.ShardCount()
    ensures var r := PutShards(c, st, id, i, stripe, j);
      && r.markers == st.markers
      && (key.objectID == id && key.stripeIdx == i && key.shardIdx < j ==>
          key in r.shards && r.shards[key] == Stored(c, id, i, key.shardIdx, stripe))
      && (!(key.objectID == id && key.stripeIdx == i && key.shardIdx < j) ==> SameAt(st, r, key))
    decreases j
  {
    hide Stored;
    if j > 0 {
      PutShardsAt(c, st, id, i, stripe, j - 1, key);
    }
  }

  /** A put of t stripes leaves exactly their shards, and everything else as it was. */
  lemma {:induction false} PutStripesAt(c: Config, st: StoreState, id: ObjectID, data: seq<byte>, t: nat, key: ShardKey)
    requires c.Valid() && t <= MAX_U32
    ensures var r := PutStripes(c, st, id, data, t);
      && r.markers == st.markers
      && (key.objectID == id && key.stripeIdx < t && key.shardIdx < c.params.ShardCount() ==>
          key in r.shards && r.shards[key] == Ideal(c, id, data, key.stripeIdx, key.shardIdx))
      && (!(key.objectID == id && key.stripeIdx < t && key.shardIdx < c.params.ShardCount()) ==> SameAt(st, r, key))
    decreases t
  {
    hide Stored, PutShards, Cut;
    if t > 0 {
      PutStripesAt(c, st, id, data, t - 1, key);
      PutShardsAt(c, PutStripes(c, st, id, data, t - 1), id, t - 1, Cut(data, c.stripeSize, t - 1), c.params.ShardCount(), key);
    }
  }

  /** Stripes put later, even under a wrapped index, remove no key. */
  lemma {:induction false} PutStripesKeeps(c: Config, st: StoreState, id: ObjectID, data: seq<byte>, t: nat, u: nat, key: ShardKey)
    requires c.Valid() && t <= u
    requires key in PutStripes(c, st, id, data, t).shards
    ensures key in PutStripes(c, st, id, data, u).shards
    decreases u
  {
    hide Stored, PutShards, Cut;
    if t < u {
      PutStripesKeeps(c, st, id, data, t, u - 1, key);
      PutShardsAt(c, PutStripes(c, st, id, data, u - 1), id, (u - 1) % MAX_U32, Cut(data, c.stripeSize, u - 1),
                  c.params.ShardCount(), key);
    }
  }

  // ----- What the stored shards say of themselves

  /** The header names the shard's place, the scheme, the stripe's length and the payload's, and sums the payload. */
  predicate Describes(p: Params, hash: StoreModel.Hash, key: ShardKey, stripeLen: int, s: StoredShard) {
    && s.h.objectID == key.objectID && s.h.stripeIdx == key.stripeIdx && s.h.shardIdx == key.shardIdx
    && s.h.dataShards == p.dataShards && s.h.parityShards == p.parityShards
    && s.h.stripeLen == stripeLen && s.h.dataLen == |s.data| && s.h.checksum == hash(s.data)
  }

  lemma StoredIsDescribed(c: Config, id: ObjectID, i: u32, j: u32, stripe: seq<byte>)
    requires c.Valid() && |stripe| <= c.stripeSize
    ensures Describes(c.params, c.hash, ShardKey(id, i, j), |stripe|, Stored(c, id, i, j, stripe))
  {
    hide Shard;
  }

  lemma PutShardsDescribed(c: Config, st: StoreState, id: ObjectID, i: u32, stripe: seq<byte>, n: nat)
    requires c.Valid() && |stripe| <= c.stripeSize && n <= c.params.ShardCount()
    ensures forall j: u32 :: j < n ==>
      var k, r := ShardKey(id, i, j), PutShards(c, st, id, i, stripe, n);
      k in r.shards && Describes(c.params, c.hash, k, |stripe|, r.shards[k])
  {
    hide PutShards, Stored, Describes;
    forall j: u32 | j < n
      ensures var k, r := ShardKey(id, i, j), PutShards(c, st, id, i, stripe, n);
        k in r.shards && Describes(c.params, c.hash, k, |stripe|, r.shards[k])
    {
      PutShardsAt(c, st, id, i, stripe, n, ShardKey(id, i, j));
      StoredIsDescribed(c, id, i, j, stripe);
    }
  }

  /** Stripe i is one of an object's exactly when the object reaches beyond its start. */
  lemma StripeOf(n: nat, size: nat, i: nat)
    requires size > 0
    ensures i < StripeCount(n, size) <==> i * size < n
    ensures Offset(i, size) == i * size
  {
    hide StripeCount, Offset;
    var t := StripeCount(n, size);
    CountBounds(n, size);
    OffsetIsProduct(i, size);
    if i < t {
      OffsetMonotone(i, t - 1, size);
    } else {
      OffsetMonotone(t, i, size);
    }
  }

  /** After a put, every shard of the object is there, and its header describes it. */
  lemma PutIsDescribed(c: Config, st: StoreState, id: ObjectID, data: seq<byte>, key: ShardKey)
    requires Fits(c, data) && key.objectID == id
    requires key.stripeIdx * c.stripeSize < |data| && key.shardIdx < c.params.dataShards + c.params.parityShards
    ensures var r, len := PutAll(c, st, id, data), Min(c.stripeSize, |data| - key.stripeIdx * c.stripeSize);
      key in r.shards && Describes(c.params, c.hash, key, len, r.shards[key])
  {
    hide PutStripes, StripeCount, Stored, Describes, Offset;
    StripeOf(|data|, c.stripeSize, key.stripeIdx);
    PutStripesAt(c, st, id, data, StripeCount(|data|, c.stripeSize), key);
    StoredIsDescribed(c, id, key.stripeIdx, key.shardIdx, Cut(data, c.stripeSize, key.stripeIdx));
  }

  /** Every shard of an object of n bytes is there, and its header describes it. */
  ghost predicate AllDescribed(c: Config, st: StoreState, id: ObjectID, n: nat)
    requires c.Valid()
  {
    forall key: ShardKey ::
      key.objectID == id && key.stripeIdx * c.stripeSize < n && key.shardIdx < c.params.dataShards + c.params.parityShards ==>
        && key in st.shards
        && Describes(c.params, c.hash, key, Min(c.stripeSize, n - key.stripeIdx * c.stripeSize), st.shards[key])
  }

  lemma PutIsAllDescribed(c: Config, st: StoreState, id: ObjectID, data: seq<byte>)
    requires Fits(c, data)
    ensures AllDescribed(c, PutAll(c, st, id, data), id, |data|)
  {
    hide PutAll, Describes, StripeCount;
    forall key: ShardKey | key.objectID == id && key.stripeIdx * c.stripeSize < |data|
      && key.shardIdx < c.params.dataShards + c.params.parityShards
      ensures key in PutAll(c, st, id, data).shards
      ensures Describes(c.params, c.hash, key, Min(c.stripeSize, |data| - key.stripeIdx * c.stripeSize),
                        PutAll(c, st, id, data).shards[key])
    {
      PutIsDescribed(c, st, id, data, key);
    }
  }

  /** Piece j of some bytes cut in k pieces of equal length, padded with zeros. */
  ghost predicate IsPiece(s: seq<byte>, bytes: seq<byte>, k: nat, j: nat)
    requires k >= 1
  {
    && |s| == (|bytes| + k - 1) / k
    && forall x :: 0 <= x < |s| ==> s[x] == if j * |s| + x < |bytes| then bytes[j * |s| + x] else ZERO
  }

  /** After a put, the data shards of every stripe hold its bytes of the object, one piece after the other. */
  lemma DataInPlace(c: Config, st: StoreState, id: ObjectID, data: seq<byte>, key: ShardKey)
    requires Fits(c, data) && key.objectID == id
    requires key.stripeIdx * c.stripeSize < |data| && key.shardIdx < c.params.dataShards
    ensures var r, start := PutAll(c, st, id, data), key.stripeIdx * c.stripeSize;
      && key in r.shards
      && IsPiece(r.shards[key].data, data[start..start + Min(c.stripeSize, |data| - start)], c.params.dataShards, key.shardIdx)
  {
    hide PutStripes, StripeCount, Offset, SplitSize, Shard, Cut, IsPiece;
    StripeOf(|data|, c.stripeSize, key.stripeIdx);
    PutStripesAt(c, st, id, data, StripeCount(|data|, c.stripeSize), key);
    var stripe := Cut(data, c.stripeSize, key.stripeIdx);
    CutAt(data, c.stripeSize, key.stripeIdx);
    ShardIsPiece(stripe, c.params.dataShards, key.shardIdx);
  }

  lemma CutAt(data: seq<byte>, size: nat, i: nat)
    requires size > 0 && Offset(i, size) < |data|
    ensures Cut(data, size, i) == data[Offset(i, size)..Offset(i, size) + Min(size, |data| - Offset(i, size))]
  {
    hide Offset;
  }

  lemma ShardIsPiece(stripe: seq<byte>, k: nat, j: nat)
    requires j < k
    ensures IsPiece(Shard(stripe, k, j), stripe, k, j)
  {
    CeilDivFormula(|stripe|, k);
    OffsetIsProduct(j, SplitSize(|stripe|, k));
    hide CeilDiv, Offset;
  }

  /** After a put the marker states the size, the scheme, and the one number of stripes that reaches the size. */
  lemma MarkerAfterPut(c: Config, st: StoreState, id: ObjectID, data: seq<byte>)
    requires Fits(c, data)
    ensures id in PutAll(c, st, id, data).markers
    ensures var m := PutAll(c, st, id, data).markers[id];
      && m.size == |data| && m.params == c.params
      && (m.stripes - 1) * c.stripeSize < |data| <= m.stripes * c.stripeSize
  {
    hide PutStripes, StripeCount, Offset;
    var t := StripeCount(|data|, c.stripeSize);
    CountBounds(|data|, c.stripeSize);
    OffsetIsProduct(t, c.stripeSize);
    if t > 0 {
      OffsetIsProduct(t - 1, c.stripeSize);
    }
  }

  // ----- Objects under erosion

  /** The data can be put and opened without the 32-bit stripe counter or the 64-bit size wrapping. */
  predicate Fits(c: Config, data: seq<byte>) {
    c.Valid() && |data| < 0x8000_0000_0000_0000 && StripeCount(|data|, c.stripeSize) < MAX_U32
  }

  /** A stored shard, or what a fault has made of it: the same header over a payload as long that fails the checksum. */
  ghost predicate MaybeRotten(c: Config, s: StoredShard, ideal: StoredShard) {
    && s.h == ideal.h
    && |s.data| == |ideal.data|
    && (s.data == ideal.data || c.hash(s.data) != s.h.checksum)
  }

  /** Of stripe i, the store holds some shards of the given bytes, each possibly rotten. */
  ghost predicate StripeEroded(c: Config, st: StoreState, id: ObjectID, i: u32, stripe: seq<byte>)
    requires c.Valid() && |stripe| <= c.stripeSize
  {
    forall k :: k in st.shards && k.objectID == id && k.stripeIdx == i ==>
      k.shardIdx < c.params.ShardCount() && MaybeRotten(c, st.shards[k], Stored(c, id, i, k.shardIdx, stripe))
  }

  /** The store holds the object, less the shards that faults have taken or spoilt. */
  ghost predicate Eroded(c: Config, st: StoreState, id: ObjectID, data: seq<byte>)
    requires Fits(c, data)
  {
    && (forall k :: k in st.shards && k.objectID == id ==>
          && k.stripeIdx < StripeCount(|data|, c.stripeSize) && k.shardIdx < c.params.ShardCount()
          && MaybeRotten(c, st.shards[k], Ideal(c, id, data, k.stripeIdx, k.shardIdx)))
    && id in st.markers && st.markers[id] == MetaOf(c, |data|)
  }

  /** Every shard of the object is there as it was put. */
  ghost predicate Complete(c: Config, st: StoreState, id: ObjectID, data: seq<byte>)
    requires Fits(c, data)
  {
    forall k: ShardKey :: k.objectID == id && k.stripeIdx < StripeCount(|data|, c.stripeSize) && k.shardIdx < c.params.ShardCount() ==>
      k in st.shards && st.shards[k] == Ideal(c, id, data, k.stripeIdx, k.shardIdx)
  }

  /** The object has no shard at or beyond the given stripe, nor outside the scheme. */
  ghost predicate NoneBeyond(c: Config, st: StoreState, id: ObjectID, t: nat) {
    forall k :: k in st.shards && k.objectID == id ==> k.stripeIdx < t && k.shardIdx < c.params.ShardCount()
  }

  /** After a put the object is complete; nothing else of it is left exactly when nothing lay beyond its stripes. */
  lemma PutCompletes(c: Config, st: StoreState, id: ObjectID, data: seq<byte>)
    requires Fits(c, data)
    ensures var r := PutAll(c, st, id, data);
      Complete(c, r, id, data) && (Eroded(c, r, id, data) <==> NoneBeyond(c, st, id, StripeCount(|data|, c.stripeSize)))
  {
    hide Stored, PutStripes, StripeCount, Ideal;
    var t, r := StripeCount(|data|, c.stripeSize), PutAll(c, st, id, data);
    forall k: ShardKey
      ensures k.objectID == id && k.stripeIdx < t && k.shardIdx < c.params.ShardCount() ==>
        k in r.shards && r.shards[k] == Ideal(c, id, data, k.stripeIdx, k.shardIdx)
      ensures !(k.objectID == id && k.stripeIdx < t && k.shardIdx < c.params.ShardCount()) ==> SameAt(st, r, k)
    {
      PutStripesAt(c, st, id, data, t, k);
    }
  }

  lemma ErodedStripe(c: Config, st: StoreState, id: ObjectID, data: seq<byte>, i: u32)
    requires Fits(c, data) && Eroded(c, st, id, data)
    ensures StripeEroded(c, st, id, i, Cut(data, c.stripeSize, i))
  {
    hide Stored, Cut;
  }

  /** Stripes within the count are not empty, and all but the last are full. */
  lemma CutLength(data: seq<byte>, size: nat, i: nat)
    requires size > 0 && i < StripeCount(|data|, size)
    ensures Offset(i, size) < |data| && |Cut(data, size, i)| > 0
    ensures i + 1 < StripeCount(|data|, size) ==> |Cut(data, size, i)| == size
    ensures i + 1 == StripeCount(|data|, size) ==> Offset(i, size) + |Cut(data, size, i)| == |data|
  {
    hide Offset, StripeCount;
    var t := StripeCount(|data|, size);
    CountBounds(|data|, size);
    OffsetMonotone(i, t - 1, size);
    OffsetShift(i, size);
    if i + 1 < t {
      OffsetMonotone(i + 1, t - 1, size);
    }
  }
}
