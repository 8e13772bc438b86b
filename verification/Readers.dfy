/** Readers that are set up otherwise than the writer was: what may differ, and what must not. */
module Readers {
  import opened Bytes
  import opened Polynomial
  import opened Types
  import opened ReedSolomon
  import opened ErasureCoding
  import opened Listing
  import opened StoreModel
  import opened ObjectModel
  import opened Placement
  import opened Recovery
  import opened Reading
  import opened Durability

  // ----- Fewer data shards: a wrong byte without an error

  /** A stripe of one byte that is not zero. */
  const SINGLE: seq<byte> := [ONE]

  /** Cut in k, its other data shards hold nothing but zeros. */
  lemma OtherShardsAreZero(k: nat, j: nat)
    requires 1 <= j < k
    ensures Shard(SINGLE, k, j) == [ZERO]
  {
    assert SplitSize(1, k) == 1;
    OffsetIsProduct(j, 1);
  }

  lemma {:induction false} PresentGrows(shards: seq<seq<byte>>, m: nat, n: nat)
    requires m <= n <= |shards|
    ensures Present(shards, m) <= Present(shards, n)
    decreases n
  {
    if m < n {
      PresentGrows(shards, m, n - 1);
    }
  }

  lemma {:induction false} PresentButFirst(shards: seq<seq<byte>>, n: nat)
    requires 1 <= n <= |shards| && shards[0] == []
    requires forall j :: 1 <= j < n ==> |shards[j]| > 0
    ensures |Present(shards, n)| == n - 1
    decreases n
  {
    if n > 1 {
      PresentButFirst(shards, n - 1);
    } else {
      assert Present(shards, 0) == [];
    }
  }

  /** Interpolation through zeros gives zero. */
  lemma AtOfZeros(zs: seq<byte>, vs: seq<byte>, x: byte)
    requires Distinct(zs) && |vs| == |zs| && forall i :: 0 <= i < |vs| ==> vs[i] == ZERO
    ensures At(zs, vs, x) == ZERO
  {
    hide At;
    assert vs == EvalAll([], zs);
    AtOfPolynomial(zs, [], x);
  }

  lemma RebuiltFromZeros(shards: seq<seq<byte>>, js: seq<nat>, j: nat)
    requires Increasing(js) && forall i :: 0 <= i < |js| ==> js[i] < |shards| && js[i] < 256 && shards[js[i]] == [ZERO]
    ensures Rebuild(shards, js, 1, j) == [ZERO]
  {
    hide At, OfInt;
    PointsDistinct(js);
    AtOfZeros(Points(js), Row(shards, js, 1, 0), OfInt(j));
  }

  /**
   * Without its first shard, and decoded with fewer data shards than it was cut in, the one-byte stripe becomes another
   * byte, and there is no error.
   */
  lemma FewerDataShards(k: nat, p: Params, shards: seq<seq<byte>>)
    requires p.Valid() && p.dataShards < k
    requires |shards| == p.ShardCount() && Survivors(SINGLE, k, shards)
    requires shards[0] == [] && forall j :: 1 <= j <= p.dataShards ==> |shards[j]| > 0
    ensures Reconstructed(shards, p).Ok? && Joined(Reconstructed(shards, p).value, p, 1) == Ok([ZERO])
  {
    hide Shard, Rebuild, Present;
    var n := p.dataShards;
    var all, js := Present(shards, |shards|), Present(shards, n + 1);
    PresentIncreasing(shards, |shards|);
    PresentGrows(shards, n + 1, |shards|);
    PresentButFirst(shards, n + 1);
    assert all[..n] == js;
    PresentIncreasing(shards, n + 1);
    forall i | 0 <= i < |js|
      ensures shards[js[i]] == [ZERO]
    {
      OtherShardsAreZero(k, js[i]);
    }
    forall j | 0 <= j < |shards|
      ensures |shards[j]| == 0 || |shards[j]| == 1
    {
      assert |Shard(SINGLE, k, j)| == SplitSize(1, k) == 1;
    }
    NotAllPresent(shards);
    RebuiltFromZeros(shards, js, 0);
    var full := Completed(shards, js, 1);
    assert Reconstructed(shards, p) == Ok(full);
    JoinedFirst(full, n);
  }

  lemma JoinedFirst(full: seq<seq<byte>>, n: nat)
    requires 1 <= n <= |full| && full[0] == [ZERO]
    ensures |Flatten(full[..n])| >= 1 && Flatten(full[..n])[..1] == [ZERO]
  {
    assert full[..n][0] == full[0];
  }

  lemma NotAllPresent(shards: seq<seq<byte>>)
    requires |shards| > 0 && shards[0] == []
    ensures |Present(shards, |shards|)| < |shards|
  {
    if |Present(shards, |shards|)| == |shards| {
      PresentAll(shards, |shards|, 0);
    }
  }

  /** An object of that one byte, put and without its first shard. */
  function FirstLostOf(c: Config, id: ObjectID): StoreState
    requires c.Valid()
  {
    WithoutShard(PutAll(c, EMPTY, id, SINGLE), ShardKey(id, 0, 0))
  }

  lemma FirstLostAt(c: Config, id: ObjectID)
    requires c.Valid()
    ensures Fits(c, SINGLE) && StripeCount(1, c.stripeSize) == 1 && Cut(SINGLE, c.stripeSize, 0) == SINGLE
    ensures var r := FirstLostOf(c, id);
      && Eroded(c, r, id, SINGLE)
      && forall j: u32 :: (ShardKey(id, 0, j) in r.shards <==> 0 < j < c.params.ShardCount())
           && (0 < j < c.params.ShardCount() ==> r.shards[ShardKey(id, 0, j)] == Stored(c, id, 0, j, SINGLE))
  {
    hide Stored, PutStripes, PutAll, MaybeRotten;
    CountOfOne(c.stripeSize);
    var all, r := PutAll(c, EMPTY, id, SINGLE), FirstLostOf(c, id);
    PutCompletes(c, EMPTY, id, SINGLE);
    forall j: u32
      ensures (ShardKey(id, 0, j) in r.shards <==> 0 < j < c.params.ShardCount())
        && (0 < j < c.params.ShardCount() ==> r.shards[ShardKey(id, 0, j)] == Stored(c, id, 0, j, SINGLE))
    {
      if j < c.params.ShardCount() {
        assert ShardKey(id, 0, j) in all.shards;
      }
    }
  }

  lemma CountOfOne(size: nat)
    requires size > 0
    ensures StripeCount(1, size) == 1 && Cut(SINGLE, size, 0) == SINGLE
  {
    assert SINGLE[0..] == SINGLE && SINGLE[0..1] == SINGLE;
  }

  lemma {:induction false} FirstLostIsValid(c: Config, d: Config, id: ObjectID, n: nat)
    requires Reads(d, c) && n <= d.params.ShardCount()
    ensures ValidCount(d, FirstLostOf(c, id), id, 0, n) >=
      if n == 0 then 0 else if n <= c.params.ShardCount() then n - 1 else c.params.ShardCount() - 1
    decreases n
  {
    hide FirstLostOf, Stored;
    if n > 0 {
      FirstLostAt(c, id);
      FirstLostIsValid(c, d, id, n - 1);
      StoredIsIntact(c, id, n - 1);
    }
  }

  lemma StoredIsIntact(c: Config, id: ObjectID, j: u32)
    requires c.Valid()
    ensures var s := Stored(c, id, 0, j, SINGLE);
      Intact(c.hash, s) && s.data == Shard(SINGLE, c.params.dataShards, j) && |s.data| == 1
  {
    hide Shard;
    assert SplitSize(1, c.params.dataShards) == 1;
  }

  /** Reading it with fewer data shards gives a wrong byte and no error. */
  lemma WrongByte(c: Config, d: Config, id: ObjectID)
    requires Reads(d, c) && d.params.dataShards < c.params.dataShards && id != []
    ensures Fits(c, SINGLE) && Eroded(c, FirstLostOf(c, id), id, SINGLE)
    ensures ReadAll(d, FirstLostOf(c, id), id) == Outcome.Done([ZERO])
  {
    hide FirstLostOf, Eroded, Stored, ValidCount, LengthSeen, Shard, Reconstructed, Joined, Announced;
    var r, total := FirstLostOf(c, id), d.params.ShardCount();
    FirstLostAt(c, id);
    ErodedStripe(c, r, id, SINGLE, 0);
    FirstLostIsValid(c, d, id, total);
    LengthSeenIs(c, d, r, id, 0, SINGLE, total);
    GatheredSurvive(c, d, r, id, 0, SINGLE);
    NotAllValid(c, d, id);
    var shards := Gathered(d, r, id, 0, total);
    forall j: nat | j <= d.params.dataShards
      ensures if j == 0 then shards[j] == [] else |shards[j]| > 0
    {
      StoredIsIntact(c, id, j);
      assert ShardKey(id, 0, j) in r.shards <==> j > 0;
    }
    FewerDataShards(c.params.dataShards, d.params, shards);
    assert StripeRead(d, r, id, 0) == Ok([ZERO]);
    OpenEroded(c, d, r, id, SINGLE);
    VisibleIsOne(c, d, id);
    hide StripeRead;
    assert Collect(d, r, id, 1, 1) == Done([]);
    assert Collect(d, r, id, 0, 1) == Done([ZERO] + []);
  }

  lemma {:induction false} NotAllValid(c: Config, d: Config, id: ObjectID)
    requires Reads(d, c)
    ensures ValidCount(d, FirstLostOf(c, id), id, 0, d.params.ShardCount()) < d.params.ShardCount()
  {
    hide FirstLostOf, Stored;
    FirstLostAt(c, id);
    FirstIsLost(d, FirstLostOf(c, id), id, d.params.ShardCount());
  }

  lemma {:induction false} FirstIsLost(d: Config, st: StoreState, id: ObjectID, n: nat)
    requires 1 <= n < MAX_U32 && ShardKey(id, 0, 0) !in st.shards
    ensures ValidCount(d, st, id, 0, n) < n
    decreases n
  {
    if n > 1 {
      FirstIsLost(d, st, id, n - 1);
    }
  }

  lemma VisibleIsOne(c: Config, d: Config, id: ObjectID)
    requires Reads(d, c) && id != []
    ensures Visible(FirstLostOf(c, id), id) == 1
  {
    hide FirstLostOf, Stored, MaybeRotten;
    FirstLostAt(c, id);
    VisibleIsBounded(c, FirstLostOf(c, id), id, SINGLE);
    assert ShardKey(id, 0, 1) in KeysOf(FirstLostOf(c, id).shards.Keys, id);
  }

  // ----- Which readers never give a wrong byte

  ghost predicate PrefixOrError(o: Outcome, data: seq<byte>) { o.NotOpened? || o.bytes <= data }

  /** Whatever is left of whatever was put under c, a reader under d gives a prefix of it, perhaps with an error. */
  ghost predicate NeverWrong(c: Config, d: Config)
    requires Reads(d, c)
  {
    forall st: StoreState, id: ObjectID, data: seq<byte> :: id != [] && Fits(c, data) && Eroded(c, st, id, data) ==>
      PrefixOrError(ReadAll(d, st, id), data)
  }

  /** Only readers that count on as many data shards as the writer, or more, never give a wrong byte. */
  lemma NeverWrongExactly(c: Config, d: Config)
    requires Reads(d, c)
    ensures NeverWrong(c, d) <==> d.params.dataShards >= c.params.dataShards
  {
    hide Eroded, ReadAll, Fits;
    if d.params.dataShards >= c.params.dataShards {
      forall st: StoreState, id: ObjectID, data: seq<byte> | id != [] && Fits(c, data) && Eroded(c, st, id, data)
        ensures PrefixOrError(ReadAll(d, st, id), data)
      {
        NeverAWrongByte(c, d, st, id, data);
      }
    } else {
      var id := [ONE];
      WrongByte(c, d, id);
      assert [ZERO][0] != SINGLE[0];
      assert !PrefixOrError(ReadAll(d, FirstLostOf(c, id), id), SINGLE);
    }
  }

  // ----- The stripe size

  /** What is read of any object from any store does not depend on the reader's stripe size. */
  lemma AnyStripeSize(d: Config, size: i64, st: StoreState, id: ObjectID)
    requires d.Valid() && size > 0
    ensures ReadAll(d.(stripeSize := size), st, id) == ReadAll(d, st, id)
  {
    hide Collect, FirstLength, SameReads;
    var e := d.(stripeSize := size);
    var keys := KeysOf(st.shards.Keys, id);
    if keys != {} {
      SameFromReads(d, st, e, st, id, 0, MaxStripe(keys), d.params.ShardCount());
      SameFirstLength(d, st, e, st, id, MaxStripe(keys), 0);
      SameCollect(d, st, e, st, id, 0, 0, (MaxStripe(keys) + 1) % MAX_U32);
    }
  }
}
