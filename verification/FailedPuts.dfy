/** What is read of a new object whose put was cut short, by its input or by the context. */
module FailedPuts {
  import opened Bytes
  import opened Types
  import opened ReedSolomon
  import opened Listing
  import opened StoreModel
  import opened ObjectModel
  import opened Placement
  import opened Recovery
  import opened Reading
  import opened Durability

  /** The store after t stripes and j shards of the next. */
  function Partial(c: Config, st: StoreState, id: ObjectID, data: seq<byte>, t: nat, j: nat): StoreState
    requires c.Valid() && j < c.params.ShardCount()
  {
    PutShards(c, PutStripes(c, st, id, data, t), id, t % MAX_U32, Cut(data, c.stripeSize, t), j)
  }

  /** How many stripes have got a shard. */
  function Begun(t: nat, j: nat): nat { if j > 0 then t + 1 else t }

  // ----- A partial object is an eroded shorter one

  lemma CutOfPrefix(data: seq<byte>, size: nat, u: nat, i: nat)
    requires size > 0 && i < u <= StripeCount(|data|, size)
    ensures Cut(Prefix(data, size, u), size, i) == Cut(data, size, i)
  {
    hide Offset, StripeCount;
    PrefixWhole(data, size);
    if u < StripeCount(|data|, size) {
      PrefixShorter(data, size, u);
      OffsetMonotone(i + 1, u, size);
      OffsetShift(i, size);
    }
  }

  lemma PrefixCount(data: seq<byte>, size: nat, u: nat)
    requires size > 0 && u <= StripeCount(|data|, size)
    ensures StripeCount(|Prefix(data, size, u)|, size) == u && |Prefix(data, size, u)| <= |data|
  {
    hide Offset, StripeCount;
    PrefixWhole(data, size);
    if u < StripeCount(|data|, size) {
      PrefixShorter(data, size, u);
      if u > 0 {
        OffsetShift(u - 1, size);
      } else {
        OffsetZero(size);
      }
      UniqueCount(Offset(u, size), size, u);
    }
  }

  lemma UniqueCount(n: nat, size: nat, t: nat)
    requires size > 0 && n <= Offset(t, size) && (t > 0 ==> Offset(t - 1, size) < n)
    ensures StripeCount(n, size) == t
  {
    CeilDivUnique(n, size, t);
  }

  /** Which shards a partial put leaves. */
  lemma PartialAt(c: Config, st: StoreState, id: ObjectID, data: seq<byte>, t: nat, j: nat, key: ShardKey)
    requires c.Valid() && j < c.params.ShardCount() && t < MAX_U32
    ensures var r, there := Partial(c, st, id, data, t, j),
                            key.objectID == id && key.shardIdx < if key.stripeIdx < t then c.params.ShardCount()
                                                                else if key.stripeIdx == t then j else 0;
      && r.markers == st.markers
      && (there ==> key in r.shards && r.shards[key] == Ideal(c, id, data, key.stripeIdx, key.shardIdx))
      && (!there ==> SameAt(st, r, key))
  {
    hide Stored, PutShards, PutStripes, Cut;
    NoWrap(t);
    PutStripesAt(c, st, id, data, t, key);
    PutShardsAt(c, PutStripes(c, st, id, data, t), id, t, Cut(data, c.stripeSize, t), j, key);
  }

  /** With a marker, it would be an eroded object of the stripes that were begun. */
  ghost function Completed(c: Config, st: StoreState, id: ObjectID, data: seq<byte>, t: nat, j: nat): StoreState
    requires Fits(c, data) && j < c.params.ShardCount() && Begun(t, j) <= StripeCount(|data|, c.stripeSize)
  {
    var whole := Prefix(data, c.stripeSize, Begun(t, j));
    PrefixCount(data, c.stripeSize, Begun(t, j));
    WithMarker(Partial(c, st, id, data, t, j), id, MetaOf(c, |whole|))
  }

  ghost predicate NoneOf(st: StoreState, id: ObjectID) { forall k :: k in st.shards ==> k.objectID != id }

  lemma PartialIsEroded(c: Config, st: StoreState, id: ObjectID, data: seq<byte>, t: nat, j: nat)
    requires Fits(c, data) && id != [] && NoneOf(st, id)
    requires j < c.params.ShardCount() && Begun(t, j) <= StripeCount(|data|, c.stripeSize)
    ensures var u := Begun(t, j);
      var whole, r := Prefix(data, c.stripeSize, u), Completed(c, st, id, data, t, j);
      Fits(c, whole) && StripeCount(|whole|, c.stripeSize) == u && Eroded(c, r, id, whole) && Visible(r, id) == u
  {
    hide Stored, Partial, StripeCount, Cut, Prefix;
    var u := Begun(t, j);
    var whole, r := Prefix(data, c.stripeSize, u), Completed(c, st, id, data, t, j);
    PrefixCount(data, c.stripeSize, u);
    forall k | k in r.shards && k.objectID == id
      ensures k.stripeIdx < u && k.shardIdx < c.params.ShardCount()
      ensures r.shards[k] == Ideal(c, id, whole, k.stripeIdx, k.shardIdx)
    {
      PartialAt(c, st, id, data, t, j, k);
      CutOfPrefix(data, c.stripeSize, u, k.stripeIdx);
    }
    VisibleIsBounded(c, r, id, whole);
    if u > 0 {
      var last := ShardKey(id, u - 1, 0);
      PartialAt(c, st, id, data, t, j, last);
      assert last in KeysOf(r.shards.Keys, id);
    }
  }

  /** All shards of the first t stripes are valid, and j of the next. */
  lemma {:induction false} PartialIsValid(
    c: Config, st: StoreState, id: ObjectID, data: seq<byte>, t: nat, j: nat, i: u32, n: nat)
    requires c.Valid() && NoneOf(st, id) && t < MAX_U32 && j < c.params.ShardCount() && n <= c.params.ShardCount()
    ensures i < t ==> ValidCount(c, Partial(c, st, id, data, t, j), id, i, n) == n
    ensures i == t ==> ValidCount(c, Partial(c, st, id, data, t, j), id, i, n) == Min(n, j)
    decreases n
  {
    hide Partial, Cut, Shard;
    if n > 0 {
      PartialIsValid(c, st, id, data, t, j, i, n - 1);
      PartialAt(c, st, id, data, t, j, ShardKey(id, i, n - 1));
    }
  }

  // ----- Main results

  /**
   * A new object of which t stripes and j shards of the next were stored reads without an error as its full stripes, and
   * one more if j is enough to recover it; with some shards of it, but too few, the read fails after the full ones.
   */
  lemma PartialReads(c: Config, st: StoreState, id: ObjectID, data: seq<byte>, t: nat, j: nat)
    requires Fits(c, data) && id != [] && NoneOf(st, id)
    requires j < c.params.ShardCount() && 0 < Begun(t, j) <= StripeCount(|data|, c.stripeSize)
    ensures ReadAll(c, Partial(c, st, id, data, t, j), id) ==
      if 0 < j < c.params.dataShards then Broken(Prefix(data, c.stripeSize, t), Unrecoverable)
      else Outcome.Done(Prefix(data, c.stripeSize, Begun(t, j)))
  {
    hide Partial, StripeCount, ReadAll, Eroded, Prefix, ValidCount, SameFrom, SameReads, Cut;
    var u, total := Begun(t, j), c.params.ShardCount();
    var whole, r, part := Prefix(data, c.stripeSize, u), Completed(c, st, id, data, t, j), Partial(c, st, id, data, t, j);
    PartialIsEroded(c, st, id, data, t, j);
    MarkerMakesNoDifference(c, part, r, id);
    ReadEroded(c, c, r, id, whole);
    PrefixWhole(whole, c.stripeSize);
    forall i: u32 | i < u
      ensures Recoverable(c, r, id, i) <==> i < t || j >= c.params.dataShards
      ensures ValidCount(c, r, id, i, total) > 0
    {
      PartialIsValid(c, st, id, data, t, j, i, total);
      SameFromReads(c, part, c, r, id, 0, i, total);
      SameCounts(c, part, c, r, id, i, total);
    }
    if 0 < j < c.params.dataShards {
      var last: u32 := t;
      assert !Recoverable(c, r, id, last);
      PrefixOfPrefix(data, c.stripeSize, t, u);
    }
  }

  lemma PrefixOfPrefix(data: seq<byte>, size: nat, t: nat, u: nat)
    requires t <= u
    ensures Prefix(Prefix(data, size, u), size, t) == Prefix(data, size, t)
  {
    OffsetMonotone(t, u, size);
  }

  lemma MarkerMakesNoDifference(c: Config, s: StoreState, r: StoreState, id: ObjectID)
    requires c.Valid() && id != [] && r.shards == s.shards && Visible(r, id) > 0
    ensures SameFrom(s, r, id, 0) && ReadAll(c, s, id) == ReadAll(c, r, id)
  {
    SameShardsRead(c, s, r, id);
  }

  /** A put whose input runs short leaves a new object that reads as its full stripes, without an error, if it has one. */
  lemma ShortPutReads(c: Config, st: StoreState, id: ObjectID, input: seq<byte>)
    requires Fits(c, input) && id != [] && NoneOf(st, id)
    ensures var t := FullCount(|input|, c.stripeSize);
      var r := PutStripes(c, st, id, input, t);
      if t > 0 then Offset(t, c.stripeSize) <= |input| && ReadAll(c, r, id) == Outcome.Done(input[..Offset(t, c.stripeSize)])
      else r == st
  {
    hide Partial, PutStripes, StripeCount, ReadAll, FullCount, Offset, Cut;
    var t := FullCount(|input|, c.stripeSize);
    FullBounds(|input|, c.stripeSize);
    FullIsCounted(|input|, c.stripeSize);
    if t == 0 {
      PutNothing(c, st, id, input);
    } else {
      PartialReads(c, st, id, input, t, 0);
      assert Partial(c, st, id, input, t, 0) == PutStripes(c, st, id, input, t) by {
        PartialOfNone(c, st, id, input, t);
      }
    }
  }

  lemma FullIsCounted(n: nat, size: nat)
    requires size > 0
    ensures FullCount(n, size) <= StripeCount(n, size)
  {
    hide StripeCount, FullCount, Offset;
    FullBounds(n, size);
    CountBounds(n, size);
    if StripeCount(n, size) < FullCount(n, size) {
      var t := FullCount(n, size);
      OffsetMonotone(StripeCount(n, size), t - 1, size);
      OffsetShift(t - 1, size);
    }
  }

  lemma PartialOfNone(c: Config, st: StoreState, id: ObjectID, data: seq<byte>, t: nat)
    requires c.Valid()
    ensures Partial(c, st, id, data, t, 0) == PutStripes(c, st, id, data, t)
  {
    hide PutStripes, Cut;
  }

  /**
   * A put that is turned away after n shards, before its last one, leaves a new object that reads without an error as the
   * stripes that have got as many as k shards, unless one more has got some: then the read fails behind them.
   */
  lemma StoppedPutReads(c: Config, st: StoreState, id: ObjectID, data: seq<byte>, n: nat)
    requires Fits(c, data) && id != [] && NoneOf(st, id)
    requires n < Offset(StripeCount(|data|, c.stripeSize), c.params.ShardCount())
    ensures var t, r := FullCount(n, c.params.ShardCount()), PutPart(c, st, id, data, n);
      var j := n - Offset(t, c.params.ShardCount());
      && t < StripeCount(|data|, c.stripeSize) && 0 <= j < c.params.ShardCount()
      && (n == 0 ==> r == st)
      && (n > 0 && 0 < j < c.params.dataShards ==> ReadAll(c, r, id) == Broken(Prefix(data, c.stripeSize, t), Unrecoverable))
      && (n > 0 && !(0 < j < c.params.dataShards) ==> ReadAll(c, r, id) == Outcome.Done(Prefix(data, c.stripeSize, Begun(t, j))))
  {
    hide PutShards, PutStripes, StripeCount, ReadAll, FullCount, Offset, Prefix, Cut;
    var t, total := FullCount(n, c.params.ShardCount()), c.params.ShardCount();
    FullBounds(n, total);
    OffsetShift(t, total);
    OffsetZero(total);
    if StripeCount(|data|, c.stripeSize) <= t {
      OffsetMonotone(StripeCount(|data|, c.stripeSize), t, total);
    }
    var j := n - Offset(t, total);
    PutPartIs(c, st, id, data, t, j);
    if n == 0 {
      OffsetMonotone(1, if t > 0 then t else 1, total);
      OffsetShift(0, total);
      PutNothing(c, st, id, data);
      PutNoShard(c, st, id, t % MAX_U32, Cut(data, c.stripeSize, t));
    } else {
      assert t > 0 || j > 0;
      PartialReads(c, st, id, data, t, j);
    }
  }
}
