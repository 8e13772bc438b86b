/** Putting over an older object, deleting, and the limits of the stripe counter. */
module Overwriting {
  import opened Bytes
  import opened Types
  import opened ReedSolomon
  import opened Listing
  import opened StoreModel
  import opened ObjectModel
  import opened Placement
  import opened Recovery
  import opened Reading
  import opened Durability

  /** Of a complete object and nothing else, a reader finds as many valid shards as it looks for and were written. */
  lemma CompleteRecovers(c: Config, d: Config, st: StoreState, id: ObjectID, data: seq<byte>, i: u32)
    requires Reads(d, c) && Fits(c, data) && Complete(c, st, id, data) && Eroded(c, st, id, data)
    requires i < StripeCount(|data|, c.stripeSize)
    ensures Recoverable(d, st, id, i) <==> d.params.dataShards <= c.params.ShardCount()
  {
    hide StripeCount, Complete, Cut, StripeEroded, ValidCount;
    var n, m := c.params.ShardCount(), d.params.ShardCount();
    CompleteIsValid(c, d, st, id, data, i, if m <= n then m else n);
    if n < m {
      ErodedStripe(c, st, id, data, i);
      NoneValidBeyond(c, d, st, id, i, Cut(data, c.stripeSize, i), m);
    }
  }

  /**
   * With nothing of the object beyond the new stripes and shards, what is put under c is read back under d exactly when as
   * many shards were written as d counts data shards.
   */
  lemma PutReadsBackUnder(c: Config, d: Config, st: StoreState, id: ObjectID, data: seq<byte>)
    requires Suits(d, c) && Fits(c, data) && id != [] && NoneBeyond(c, st, id, StripeCount(|data|, c.stripeSize))
    ensures ReadAll(d, PutAll(c, st, id, data), id) == Outcome.Done(data) <==>
      data == [] || d.params.dataShards <= c.params.ShardCount()
  {
    hide StripeCount, PutAll, ReadAll, Eroded, Complete, NoneBeyond, Recoverable;
    var n, r := StripeCount(|data|, c.stripeSize), PutAll(c, st, id, data);
    PutCompletes(c, st, id, data);
    CountBounds(|data|, c.stripeSize);
    forall i: u32 | i < n
      ensures Recoverable(d, r, id, i) <==> d.params.dataShards <= c.params.ShardCount()
    {
      CompleteRecovers(c, d, r, id, data, i);
    }
    ReadsBackExactly(c, d, r, id, data);
    if data != [] {
      var first: u32 := 0;
      assert AllRecoverable(d, r, id, 0, n) ==> Recoverable(d, r, id, first);
    }
  }

  // ----- Reading after a put over anything

  /** Within the new stripes and shards, a put leaves what it would leave in an empty store. */
  lemma PutReadsAlike(c: Config, st: StoreState, id: ObjectID, data: seq<byte>, i: u32)
    requires Fits(c, data) && i < StripeCount(|data|, c.stripeSize)
    ensures SameReads(c, PutAll(c, st, id, data), c, PutAll(c, EMPTY, id, data), id, i, c.params.ShardCount())
  {
    hide PutStripes, StripeCount, Ideal;
    forall j: u32 | j < c.params.ShardCount()
      ensures Read(c, PutAll(c, st, id, data), id, i, j) == Read(c, PutAll(c, EMPTY, id, data), id, i, j)
    {
      PutStripesAt(c, st, id, data, StripeCount(|data|, c.stripeSize), ShardKey(id, i, j));
      PutStripesAt(c, EMPTY, id, data, StripeCount(|data|, c.stripeSize), ShardKey(id, i, j));
    }
  }

  /** A stripe that was put reads back, whatever the store held before. */
  lemma NewStripeReads(c: Config, st: StoreState, id: ObjectID, data: seq<byte>, i: u32)
    requires Fits(c, data) && i < StripeCount(|data|, c.stripeSize)
    ensures StripeRead(c, PutAll(c, st, id, data), id, i) == Ok(Cut(data, c.stripeSize, i)) && |Cut(data, c.stripeSize, i)| > 0
    ensures ValidCount(c, PutAll(c, st, id, data), id, i, c.params.ShardCount()) == c.params.ShardCount()
  {
    hide PutAll, StripeCount, Cut, StripeRead, ValidCount, Complete, Eroded, SameReads, StripeEroded;
    var r, alone, total := PutAll(c, st, id, data), PutAll(c, EMPTY, id, data), c.params.ShardCount();
    PutCompletes(c, EMPTY, id, data);
    CompleteIsValid(c, c, alone, id, data, i, total);
    CutLength(data, c.stripeSize, i);
    ErodedStripe(c, alone, id, data, i);
    StripeReadsBack(c, c, alone, id, i, Cut(data, c.stripeSize, i));
    PutReadsAlike(c, st, id, data, i);
    SameStripe(c, r, c, alone, id, i);
    SameCounts(c, r, c, alone, id, i, total);
  }

  /** From the stripe behind the new ones on, a put leaves what was there. */
  lemma PutLeavesBeyond(c: Config, st: StoreState, id: ObjectID, data: seq<byte>)
    requires Fits(c, data)
    ensures SameFrom(st, PutAll(c, st, id, data), id, StripeCount(|data|, c.stripeSize))
  {
    hide PutStripes, StripeCount, Ideal;
    var t, r := StripeCount(|data|, c.stripeSize), PutAll(c, st, id, data);
    forall k: ShardKey | k.objectID == id && k.stripeIdx >= t
      ensures SameAt(st, r, k)
    {
      PutStripesAt(c, st, id, data, t, k);
    }
  }

  /** A put shows its own stripes and leaves in the listing those that it showed beyond them. */
  lemma VisibleAfterPut(c: Config, st: StoreState, id: ObjectID, data: seq<byte>)
    requires Fits(c, data) && id != []
    ensures var t := StripeCount(|data|, c.stripeSize);
      Visible(PutAll(c, st, id, data), id) == if Visible(st, id) > t then Visible(st, id) else t
  {
    hide PutStripes, StripeCount, Ideal;
    var t, r := StripeCount(|data|, c.stripeSize), PutAll(c, st, id, data);
    var was, keys := KeysOf(st.shards.Keys, id), KeysOf(r.shards.Keys, id);
    forall k | k in keys
      ensures k.stripeIdx < t || k in was
    {
      PutStripesAt(c, st, id, data, t, k);
    }
    if Visible(st, id) > t {
      var last :| last in was && last.stripeIdx == MaxStripe(was);
      PutStripesAt(c, st, id, data, t, last);
      assert last in keys;
    } else if t > 0 {
      PutStripesAt(c, st, id, data, t, ShardKey(id, t - 1, 0));
      assert ShardKey(id, t - 1, 0) in keys;
    }
  }

  /** From stripe i of the new object on, its rest is read and then what was there behind its stripes. */
  lemma {:induction false} CollectAfterPut(c: Config, st: StoreState, id: ObjectID, data: seq<byte>, i: u32, total: u32)
    requires Fits(c, data) && i <= StripeCount(|data|, c.stripeSize) <= total
    ensures var o := Collect(c, PutAll(c, st, id, data), id, i, total);
      var stale := Collect(c, st, id, StripeCount(|data|, c.stripeSize), total);
      o.(bytes := Prefix(data, c.stripeSize, i) + o.bytes) == stale.(bytes := data + stale.bytes)
    decreases total - i
  {
    hide StripeRead, PutAll, StripeCount, Cut, Prefix, SameFrom;
    var t, r := StripeCount(|data|, c.stripeSize), PutAll(c, st, id, data);
    if i == t {
      PrefixWhole(data, c.stripeSize);
      PutLeavesBeyond(c, st, id, data);
      SameCollect(c, st, c, r, id, t, t, total);
    } else {
      NewStripeReads(c, st, id, data, i);
      PrefixGrows(data, c.stripeSize, i);
      CollectAfterPut(c, st, id, data, i + 1, total);
      var rest := Collect(c, r, id, i + 1, total);
      assert Prefix(data, c.stripeSize, i) + (Cut(data, c.stripeSize, i) + rest.bytes)
          == Prefix(data, c.stripeSize, i + 1) + rest.bytes;
    }
  }

  /**
   * Whatever the store held, a read after a put gives the new bytes and then, as if they belonged to them, those of the
   * stripes that were listed beyond the new ones; it opens unless the last of these has no valid shard.
   */
  lemma ReadAfterPut(c: Config, st: StoreState, id: ObjectID, data: seq<byte>)
    requires Fits(c, data) && id != [] && Visible(st, id) < MAX_U32
    ensures var t, v, o := StripeCount(|data|, c.stripeSize), Visible(st, id), ReadAll(c, PutAll(c, st, id, data), id);
      if v <= t then o == Outcome.Done(data)
      else if FirstLength(c, st, id, v - 1, 0).Err? then o == NotOpened(FirstLength(c, st, id, v - 1, 0).error)
      else
        var stale := Collect(c, st, id, t, v);
        o == stale.(bytes := data + stale.bytes)
  {
    hide PutAll, StripeCount, FirstLength, Collect, Prefix, SameFrom, SameReads, ValidCount, Visible, Cut, StripeRead;
    var t, v, r := StripeCount(|data|, c.stripeSize), Visible(st, id), PutAll(c, st, id, data);
    VisibleAfterPut(c, st, id, data);
    PrefixWhole(data, c.stripeSize);
    if v > t {
      PutLeavesBeyond(c, st, id, data);
      SameFromReads(c, st, c, r, id, t, v - 1, c.params.ShardCount());
      SameFirstLength(c, st, c, r, id, v - 1, 0);
      CollectAfterPut(c, st, id, data, 0, v);
      ReadByCollect(c, r, id);
    } else if t > 0 {
      NewStripeReads(c, st, id, data, t - 1);
      ValidHasLength(c, r, id, t - 1, 0, c.params.ShardCount());
      NoneGathered(c, r, id, t - 1);
      CollectAfterPut(c, st, id, data, 0, t);
      NothingToCollect(c, st, id, t);
      ReadByCollect(c, r, id);
      assert data + [] == data && [] + Collect(c, r, id, 0, t).bytes == Collect(c, r, id, 0, t).bytes;
    } else {
      ReadByMarker(c, st, id, data);
    }
  }

  lemma NothingToCollect(c: Config, st: StoreState, id: ObjectID, t: u32)
    requires c.Valid()
    ensures Collect(c, st, id, t, t) == Done([])
  {
  }

  /** With listed stripes, reading is opening by the last of them and collecting them all. */
  lemma ReadByCollect(c: Config, st: StoreState, id: ObjectID)
    requires c.Valid() && 0 < Visible(st, id) < MAX_U32
    ensures var v := Visible(st, id);
      ReadAll(c, st, id) == match FirstLength(c, st, id, v - 1, 0)
        case Err(e) => NotOpened(e)
        case Ok(_) => Collect(c, st, id, 0, v)
  {
    hide FirstLength, Collect, Wrap64;
  }

  /** Without, the marker of the put is all there is. */
  lemma ReadByMarker(c: Config, st: StoreState, id: ObjectID, data: seq<byte>)
    requires Fits(c, data) && id != [] && Visible(PutAll(c, st, id, data), id) == 0 && StripeCount(|data|, c.stripeSize) == 0
    ensures ReadAll(c, PutAll(c, st, id, data), id) == Outcome.Done(data)
  {
    hide PutStripes, StripeCount;
    CountBounds(|data|, c.stripeSize);
  }

  lemma {:induction false} ValidHasLength(c: Config, st: StoreState, id: ObjectID, i: u32, j: nat, n: nat)
    requires c.Valid() && j <= n == c.params.ShardCount() && ValidCount(c, st, id, i, j) < ValidCount(c, st, id, i, n)
    ensures FirstLength(c, st, id, i, j).Ok?
    decreases n - j
  {
    hide Read;
    if j < n {
      NoWrap(j);
      if !Read(c, st, id, i, j).Ok? {
        ValidHasLength(c, st, id, i, j + 1, n);
      }
    }
  }

  /** With no stripes listed beyond the new ones, a put is read back, whatever else the store held of the object. */
  lemma PutReadsBack(c: Config, st: StoreState, id: ObjectID, data: seq<byte>)
    requires Fits(c, data) && id != [] && Visible(st, id) <= StripeCount(|data|, c.stripeSize)
    ensures ReadAll(c, PutAll(c, st, id, data), id) == Outcome.Done(data)
  {
    hide StripeCount, PutAll, ReadAll, Visible;
    ReadAfterPut(c, st, id, data);
  }

  /** Deleting first makes any put read back. */
  lemma DeleteThenPut(c: Config, st: StoreState, id: ObjectID, data: seq<byte>)
    requires Fits(c, data) && id != []
    ensures ReadAll(c, PutAll(c, DeleteAll(st, id), id, data), id) == Outcome.Done(data)
  {
    hide PutAll, ReadAll, StripeCount;
    assert KeysOf(DeleteAll(st, id).shards.Keys, id) == {};
    PutReadsBack(c, DeleteAll(st, id), id, data);
  }

  // ----- Over an older object, which may have been put under other flags

  /** The bytes of stripes lo to hi. */
  function Stretch(data: seq<byte>, size: nat, lo: nat, hi: nat): seq<byte> {
    var whole := Prefix(data, size, hi);
    whole[Min(Offset(lo, size), |whole|)..]
  }

  lemma StretchIs(data: seq<byte>, size: nat, lo: nat, hi: nat, more: seq<byte>)
    requires size > 0 && lo < StripeCount(|data|, size)
    ensures Prefix(data, size, lo) + more == Prefix(data, size, hi) ==> more == Stretch(data, size, lo, hi)
  {
    hide StripeCount, Offset;
    PrefixShorter(data, size, lo);
  }

  /**
   * With more stripes of the older object visible than the new one has, a read gives the new bytes and then the stale
   * stripes, up to one that cannot be recovered.
   */
  lemma StaleIsRead(b: Config, c: Config, st: StoreState, id: ObjectID, older: seq<byte>, data: seq<byte>)
    requires Suits(c, b) && Fits(b, older) && Fits(c, data) && id != [] && Eroded(b, st, id, older)
    requires Visible(st, id) > StripeCount(|data|, c.stripeSize)
    ensures Visible(st, id) <= StripeCount(|older|, b.stripeSize) < MAX_U32
    ensures var t, v, o := StripeCount(|data|, c.stripeSize), Visible(st, id), ReadAll(c, PutAll(c, st, id, data), id);
      if ValidCount(c, st, id, v - 1, c.params.ShardCount()) == 0 then o == NotOpened(Unrecoverable)
      else if AllRecoverable(c, st, id, t, v) then o == Outcome.Done(data + Stretch(older, b.stripeSize, t, v))
      else exists f :: IsFirstLost(c, st, id, t, f, v) && o == Broken(data + Stretch(older, b.stripeSize, t, f), Unrecoverable)
  {
    hide PutAll, StripeCount, Collect, Prefix, FirstLength, Eroded, AllRecoverable, ValidCount, Stretch, Visible, ReadAll, Cut,
         StripeEroded;
    var t, v := StripeCount(|data|, c.stripeSize), Visible(st, id);
    VisibleIsBounded(b, st, id, older);
    ReadAfterPut(c, st, id, data);
    ErodedStripe(b, st, id, older, v - 1);
    FirstLengthIs(b, c, st, id, v - 1, Cut(older, b.stripeSize, v - 1), 0);
    NoneGathered(c, st, id, v - 1);
    if ValidCount(c, st, id, v - 1, c.params.ShardCount()) > 0 {
      CollectEroded(b, c, st, id, older, t, v);
      StretchIs(older, b.stripeSize, t, v, Collect(c, st, id, t, v).bytes);
      if !AllRecoverable(c, st, id, t, v) {
        var f := FirstLost(c, st, id, t, v);
        StretchIs(older, b.stripeSize, t, f, Collect(c, st, id, t, v).bytes);
      }
    }
  }

  lemma StretchIsMore(c: Config, data: seq<byte>, lo: nat, hi: nat)
    requires Fits(c, data) && lo < hi <= StripeCount(|data|, c.stripeSize)
    ensures |Stretch(data, c.stripeSize, lo, hi)| > 0
    ensures hi == StripeCount(|data|, c.stripeSize) ==>
      Offset(lo, c.stripeSize) <= |data| && Stretch(data, c.stripeSize, lo, hi) == data[Offset(lo, c.stripeSize)..]
  {
    hide StripeCount, Offset;
    PrefixShorter(data, c.stripeSize, lo);
    OffsetShift(lo, c.stripeSize);
    OffsetMonotone(lo + 1, hi, c.stripeSize);
    PrefixWhole(data, c.stripeSize);
  }

  /** An older stripe that reads at all, in whatever way, is not empty. */
  lemma StaleStripeReads(b: Config, c: Config, st: StoreState, id: ObjectID, older: seq<byte>, i: u32)
    requires Reads(c, b) && Fits(b, older) && Eroded(b, st, id, older) && i < StripeCount(|older|, b.stripeSize)
    ensures StripeRead(c, st, id, i).Ok? ==> |StripeRead(c, st, id, i).value| > 0
  {
    hide StripeCount, Cut, Eroded, StripeEroded, Gathered, ValidCount, LengthSeen;
    CutLength(older, b.stripeSize, i);
    ErodedStripe(b, st, id, older, i);
    if StripeRead(c, st, id, i).Ok? {
      LengthSeenIs(b, c, st, id, i, Cut(older, b.stripeSize, i), c.params.ShardCount());
    }
  }

  /**
   * Over an older object, whatever faults have left of it and under whatever flags it was put, the new bytes are read back
   * exactly when the listing showed no more stripes of it than the new bytes have.
   */
  lemma OverwriteReadsBack(b: Config, c: Config, st: StoreState, id: ObjectID, older: seq<byte>, data: seq<byte>)
    requires Reads(c, b) && Fits(b, older) && Fits(c, data) && id != [] && Eroded(b, st, id, older)
    ensures ReadAll(c, PutAll(c, st, id, data), id) == Outcome.Done(data) <==>
      Visible(st, id) <= StripeCount(|data|, c.stripeSize)
  {
    hide PutAll, StripeCount, ReadAll, Visible, Eroded, StripeRead, FirstLength;
    var t, v := StripeCount(|data|, c.stripeSize), Visible(st, id);
    VisibleIsBounded(b, st, id, older);
    ReadAfterPut(c, st, id, data);
    if v > t {
      StaleStripeReads(b, c, st, id, older, t);
      var stale := Collect(c, st, id, t, v);
      assert stale.Done? ==> |stale.bytes| > 0;
    }
  }

  /**
   * Over a complete older object, that is when the new bytes have no fewer stripes than the old ones; otherwise the old
   * bytes behind the new stripes are read after the new ones.
   */
  lemma OverwriteComplete(b: Config, c: Config, st: StoreState, id: ObjectID, older: seq<byte>, data: seq<byte>)
    requires Reads(c, b) && Fits(b, older) && Fits(c, data) && id != []
    requires Eroded(b, st, id, older) && Complete(b, st, id, older)
    ensures var t, o := StripeCount(|data|, c.stripeSize), ReadAll(c, PutAll(c, st, id, data), id);
      && (o == Outcome.Done(data) <==> t >= StripeCount(|older|, b.stripeSize))
      && (t < StripeCount(|older|, b.stripeSize) && b.params.dataShards <= c.params.dataShards <= b.params.ShardCount() ==>
            Offset(t, b.stripeSize) <= |older| && o == Outcome.Done(data + older[Offset(t, b.stripeSize)..]))
  {
    hide PutAll, StripeCount, ReadAll, Eroded, Ideal, Offset, ValidCount, Complete, Stretch;
    var t, n := StripeCount(|data|, c.stripeSize), StripeCount(|older|, b.stripeSize);
    OverwriteReadsBack(b, c, st, id, older, data);
    LastListedIsAll(b, st, id, older);
    CountBounds(|older|, b.stripeSize);
    CompleteIsListed(b, st, id, older);
    if t < n && b.params.dataShards <= c.params.dataShards <= b.params.ShardCount() {
      forall i: u32 | t <= i < n
        ensures Recoverable(c, st, id, i)
      {
        CompleteRecovers(b, c, st, id, older, i);
      }
      var last: u32 := n - 1;
      assert Recoverable(c, st, id, last);
      StaleIsRead(b, c, st, id, older, data);
      StretchIsMore(b, older, t, n);
    }
  }

  lemma CompleteIsListed(c: Config, st: StoreState, id: ObjectID, data: seq<byte>)
    requires Fits(c, data) && Complete(c, st, id, data)
    ensures StripeCount(|data|, c.stripeSize) > 0 ==> Listed(st, id, StripeCount(|data|, c.stripeSize) - 1)
  {
    hide StripeCount, Ideal;
    var n := StripeCount(|data|, c.stripeSize);
    if n > 0 {
      assert ShardKey(id, n - 1, 0) in st.shards;
    }
  }

  // ----- The 32-bit stripe counter

  /** With 2^32 stripes or more the last index is listed, and a reader counts none. */
  lemma CounterWraps(c: Config, st: StoreState, id: ObjectID, data: seq<byte>)
    requires c.Valid() && id != [] && |data| < 0x8000_0000_0000_0000 && StripeCount(|data|, c.stripeSize) >= MAX_U32
    ensures var r := ReadAll(c, PutAll(c, st, id, data), id);
      r.NotOpened? || r == Outcome.Done([])
  {
    hide PutStripes, StripeCount, Cut, FirstLength;
    var n, r := StripeCount(|data|, c.stripeSize), PutAll(c, st, id, data);
    var last := ShardKey(id, MAX_U32 - 1, 0);
    PutStripesAt(c, st, id, data, MAX_U32, last);
    PutStripesKeeps(c, st, id, data, MAX_U32, n, last);
    assert last in KeysOf(r.shards.Keys, id);
    assert MaxStripe(KeysOf(r.shards.Keys, id)) == MAX_U32 - 1;
  }

  /** A put of a new object is read back exactly when its stripes can be counted in 32 bits. */
  lemma CounterLimit(c: Config, st: StoreState, id: ObjectID, data: seq<byte>)
    requires c.Valid() && id != [] && |data| < 0x8000_0000_0000_0000
    requires forall k :: k in st.shards ==> k.objectID != id
    ensures ReadAll(c, PutAll(c, st, id, data), id) == Outcome.Done(data) <==> |data| <= 0xFFFF_FFFF * c.stripeSize
  {
    hide PutAll, StripeCount, ReadAll, Offset;
    OffsetIsProduct(0xFFFF_FFFF, c.stripeSize);
    var n := StripeCount(|data|, c.stripeSize);
    CountBounds(|data|, c.stripeSize);
    if n < MAX_U32 {
      OffsetMonotone(n, MAX_U32 - 1, c.stripeSize);
      PutReadsBack(c, st, id, data);
    } else {
      OffsetMonotone(MAX_U32 - 1, n - 1, c.stripeSize);
      CounterWraps(c, st, id, data);
    }
  }

  // ----- Isolation

  lemma {:induction false} PutIsLocal(c: Config, st: StoreState, id: ObjectID, data: seq<byte>, t: nat, other: ObjectID)
    requires c.Valid() && other != id
    ensures SameObject(st, PutStripes(c, st, id, data, t), other)
    decreases t
  {
    hide PutShards, Cut;
    if t > 0 {
      var before := PutStripes(c, st, id, data, t - 1);
      PutIsLocal(c, st, id, data, t - 1, other);
      forall k: ShardKey | k.objectID == other
        ensures SameAt(before, PutStripes(c, st, id, data, t), k)
      {
        PutShardsAt(c, before, id, (t - 1) % MAX_U32, Cut(data, c.stripeSize, t - 1), c.params.ShardCount(), k);
      }
      PutShardsAt(c, before, id, (t - 1) % MAX_U32, Cut(data, c.stripeSize, t - 1), c.params.ShardCount(), ShardKey(id, 0, 0));
    }
  }

  /** A put or a delete of one object changes no other: its shards, its marker and what is read of it stay. */
  lemma Isolation(c: Config, st: StoreState, id: ObjectID, data: seq<byte>, other: ObjectID)
    requires c.Valid() && |data| < 0x8000_0000_0000_0000 && id != [] && other != [] && other != id
    ensures SameObject(st, PutAll(c, st, id, data), other) && SameObject(st, DeleteAll(st, id), other)
    ensures ReadAll(c, PutAll(c, st, id, data), other) == ReadAll(c, st, other) == ReadAll(c, DeleteAll(st, id), other)
  {
    hide PutStripes, StripeCount, ReadAll;
    PutIsLocal(c, st, id, data, StripeCount(|data|, c.stripeSize), other);
    SameReadAll(c, st, PutAll(c, st, id, data), other);
    SameReadAll(c, st, DeleteAll(st, id), other);
  }

  /** A delete spares the other objects exactly when the id is not empty or there are no other shards. */
  lemma DeleteSparesOthers(st: StoreState, id: ObjectID)
    ensures (forall other :: other != id ==> SameObject(st, DeleteAll(st, id), other)) <==>
      id != [] || forall k :: k in st.shards ==> k.objectID == id
  {
    if id == [] && exists k :: k in st.shards && k.objectID != id {
      var k :| k in st.shards && k.objectID != id;
      assert !SameObject(st, DeleteAll(st, id), k.objectID);
    }
  }

  /** After a delete the object has no shard, no marker and cannot be opened. */
  lemma DeletedIsGone(c: Config, st: StoreState, id: ObjectID)
    requires c.Valid()
    ensures var r := DeleteAll(st, id);
      KeysOf(r.shards.Keys, id) == {} && id !in r.markers && ReadAll(c, r, id) == NotOpened(ObjectNotFound)
  {
    assert KeysOf(DeleteAll(st, id).shards.Keys, id) == {};
  }
}
