/** A stripe reads back exactly when enough of its shards are valid. */
module Recovery {
  import opened Bytes
  import opened Types
  import opened ReedSolomon
  import opened ErasureCoding
  import opened StoreModel
  import opened ObjectModel
  import opened Placement

  /** At least k shards of the stripe are present and pass their checksum. */
  ghost predicate Recoverable(c: Config, st: StoreState, id: ObjectID, i: u32)
    requires c.Valid()
  {
    ValidCount(c, st, id, i, c.params.ShardCount()) >= c.params.dataShards
  }

  /** A reader may be set up otherwise than the writer was, but it takes the same checksums. */
  ghost predicate Reads(d: Config, c: Config) { c.Valid() && d.Valid() && d.hash == c.hash }

  /** A reader that counts on no fewer data shards than the writer did; parity and stripe size are its own. */
  ghost predicate Suits(d: Config, c: Config) { Reads(d, c) && d.params.dataShards >= c.params.dataShards }

  lemma ReadOfEroded(c: Config, d: Config, st: StoreState, id: ObjectID, i: u32, stripe: seq<byte>, j: u32)
    requires Reads(d, c) && |stripe| <= c.stripeSize && StripeEroded(c, st, id, i, stripe)
    ensures Read(d, st, id, i, j).Ok? ==>
      Read(d, st, id, i, j).value == Stored(c, id, i, j, stripe)
    ensures Stored(c, id, i, j, stripe).data == Shard(stripe, c.params.dataShards, j)
    ensures Stored(c, id, i, j, stripe).h.stripeLen == |stripe|
  {
    hide Shard, SplitSize;
  }

  lemma GatheredSurvive(c: Config, d: Config, st: StoreState, id: ObjectID, i: u32, stripe: seq<byte>)
    requires Reads(d, c) && |stripe| <= c.stripeSize && StripeEroded(c, st, id, i, stripe)
    ensures Survivors(stripe, c.params.dataShards, Gathered(d, st, id, i, d.params.ShardCount()))
  {
    hide Shard, Read, Stored, StripeEroded;
    var shards := Gathered(d, st, id, i, d.params.ShardCount());
    forall j | 0 <= j < |shards|
      ensures |shards[j]| == 0 || shards[j] == Shard(stripe, c.params.dataShards, j)
    {
      ReadOfEroded(c, d, st, id, i, stripe, j);
    }
  }

  /** The non-empty gathered shards are the valid ones. */
  lemma {:induction false} PresentIsValid(
    c: Config, d: Config, st: StoreState, id: ObjectID, i: u32, stripe: seq<byte>, n: nat)
    requires Reads(d, c) && 0 < |stripe| <= c.stripeSize && StripeEroded(c, st, id, i, stripe)
    requires n <= d.params.ShardCount()
    ensures |Present(Gathered(d, st, id, i, d.params.ShardCount()), n)| == ValidCount(d, st, id, i, n)
    decreases n
  {
    hide Shard, Read, Stored, StripeEroded, SplitSize;
    if n > 0 {
      PresentIsValid(c, d, st, id, i, stripe, n - 1);
      ReadOfEroded(c, d, st, id, i, stripe, n - 1);
      SplitSizeCovers(|stripe|, c.params.dataShards);
    }
  }

  lemma {:induction false} LengthSeenIs(c: Config, d: Config, st: StoreState, id: ObjectID, i: u32, stripe: seq<byte>, n: nat)
    requires Reads(d, c) && |stripe| <= c.stripeSize && StripeEroded(c, st, id, i, stripe)
    requires n <= d.params.ShardCount() && ValidCount(d, st, id, i, n) > 0
    ensures LengthSeen(d, st, id, i, n) == |stripe|
    decreases n
  {
    hide Shard, Read, Stored, StripeEroded;
    ReadOfEroded(c, d, st, id, i, stripe, n - 1);
    if !Read(d, st, id, i, n - 1).Ok? {
      LengthSeenIs(c, d, st, id, i, stripe, n - 1);
    }
  }

  /**
   * A stripe written under c reads back under d as it was put, if as many shards are valid, among those d knows of, as d
   * counts data shards; with fewer the read fails.
   */
  lemma StripeReadsBack(c: Config, d: Config, st: StoreState, id: ObjectID, i: u32, stripe: seq<byte>)
    requires Suits(d, c) && 0 < |stripe| <= c.stripeSize && StripeEroded(c, st, id, i, stripe)
    ensures StripeRead(d, st, id, i) == if Recoverable(d, st, id, i) then Ok(stripe) else Err(Unrecoverable)
  {
    hide Gathered, ValidCount, LengthSeen, Shard, Stored, StripeEroded, Joined, SplitSize;
    var k, p, total := c.params.dataShards, d.params, d.params.ShardCount();
    if Recoverable(d, st, id, i) {
      GatheredSurvive(c, d, st, id, i, stripe);
      PresentIsValid(c, d, st, id, i, stripe, total);
      LengthSeenIs(c, d, st, id, i, stripe, total);
      AnyKSuffice(stripe, k, p, Gathered(d, st, id, i, total));
    }
  }

  /** The first valid header of a stripe gives its length; without a valid shard there is none. */
  lemma {:induction false} FirstLengthIs(
    c: Config, d: Config, st: StoreState, id: ObjectID, i: u32, stripe: seq<byte>, j: nat)
    requires Reads(d, c) && |stripe| <= c.stripeSize && StripeEroded(c, st, id, i, stripe)
    requires j <= d.params.ShardCount() && ValidCount(d, st, id, i, j) == 0
    ensures FirstLength(d, st, id, i, j) ==
      if ValidCount(d, st, id, i, d.params.ShardCount()) > 0 then Ok(|stripe|) else Err(Unrecoverable)
    decreases d.params.ShardCount() - j
  {
    hide Shard, Read, Stored, StripeEroded;
    if j < d.params.ShardCount() {
      NoWrap(j);
      ReadOfEroded(c, d, st, id, i, stripe, j);
      if Read(d, st, id, i, j).Ok? {
        ValidCountGrows(d, st, id, i, j + 1, d.params.ShardCount());
      } else {
        FirstLengthIs(c, d, st, id, i, stripe, j + 1);
      }
    }
  }

  /** In whatever store, the length that opening takes is in the first valid header, by shard index. */
  lemma {:induction false} FirstLengthIsFirst(c: Config, st: StoreState, id: ObjectID, i: u32, j: nat)
    requires c.params.Valid() && j <= c.params.ShardCount()
    ensures match FirstLength(c, st, id, i, j)
      case Ok(length) =>
        exists x: u32 :: j <= x < c.params.ShardCount() && IsFirstValid(c, st, id, i, j, x)
          && length == Read(c, st, id, i, x).value.h.stripeLen
      case Err(e) => e == Unrecoverable && forall x: u32 :: j <= x < c.params.ShardCount() ==> Read(c, st, id, i, x).Err?
    decreases c.params.ShardCount() - j
  {
    hide Read;
    if j < c.params.ShardCount() {
      NoWrap(j);
      if Read(c, st, id, i, j).Ok? {
        assert IsFirstValid(c, st, id, i, j, j);
      } else {
        FirstLengthIsFirst(c, st, id, i, j + 1);
        if FirstLength(c, st, id, i, j + 1).Ok? {
          var x: u32 :| j + 1 <= x < c.params.ShardCount() && IsFirstValid(c, st, id, i, j + 1, x)
            && FirstLength(c, st, id, i, j + 1).value == Read(c, st, id, i, x).value.h.stripeLen;
          assert IsFirstValid(c, st, id, i, j, x);
        }
      }
    }
  }

  ghost predicate IsFirstValid(c: Config, st: StoreState, id: ObjectID, i: u32, j: nat, x: u32) {
    Read(c, st, id, i, x).Ok? && forall y: u32 :: j <= y < x ==> Read(c, st, id, i, y).Err?
  }

  /** The length that loading takes is in the last one. */
  lemma {:induction false} LengthSeenIsLast(c: Config, st: StoreState, id: ObjectID, i: u32, n: nat)
    requires n < MAX_U32
    ensures ValidCount(c, st, id, i, n) > 0 ==>
      exists x: u32 :: x < n && IsLastValid(c, st, id, i, x, n)
        && LengthSeen(c, st, id, i, n) == Read(c, st, id, i, x).value.h.stripeLen
    decreases n
  {
    hide Read;
    if n > 0 {
      if Read(c, st, id, i, n - 1).Ok? {
        assert IsLastValid(c, st, id, i, n - 1, n);
      } else {
        LengthSeenIsLast(c, st, id, i, n - 1);
        if ValidCount(c, st, id, i, n - 1) > 0 {
          var x: u32 :| x < n - 1 && IsLastValid(c, st, id, i, x, n - 1)
            && LengthSeen(c, st, id, i, n - 1) == Read(c, st, id, i, x).value.h.stripeLen;
          assert IsLastValid(c, st, id, i, x, n);
        }
      }
    }
  }

  ghost predicate IsLastValid(c: Config, st: StoreState, id: ObjectID, i: u32, x: u32, n: nat) {
    Read(c, st, id, i, x).Ok? && forall y: u32 :: x < y < n ==> Read(c, st, id, i, y).Err?
  }

  lemma {:induction false} ValidCountGrows(c: Config, st: StoreState, id: ObjectID, i: u32, a: nat, b: nat)
    requires a <= b < MAX_U32
    ensures ValidCount(c, st, id, i, a) <= ValidCount(c, st, id, i, b)
    decreases b
  {
    hide Read;
    if a < b {
      ValidCountGrows(c, st, id, i, a, b - 1);
    }
  }

  /** A valid shard sits under a listed key. */
  lemma {:induction false} ValidIsListed(c: Config, st: StoreState, id: ObjectID, i: u32, n: nat) returns (j: u32)
    requires n < MAX_U32 && ValidCount(c, st, id, i, n) > 0
    ensures j < n && ShardKey(id, i, j) in st.shards
    decreases n
  {
    if Read(c, st, id, i, n - 1).Ok? {
      j := n - 1;
    } else {
      j := ValidIsListed(c, st, id, i, n - 1);
    }
  }

  /** All shards of a complete object are valid. */
  lemma {:induction false} CompleteIsValid(
    c: Config, d: Config, st: StoreState, id: ObjectID, data: seq<byte>, i: u32, n: nat)
    requires Reads(d, c) && Fits(c, data) && Complete(c, st, id, data)
    requires i < StripeCount(|data|, c.stripeSize) && n <= c.params.ShardCount()
    ensures ValidCount(d, st, id, i, n) == n
    decreases n
  {
    hide Shard, StripeCount, Cut;
    if n > 0 {
      CompleteIsValid(c, d, st, id, data, i, n - 1);
      assert ShardKey(id, i, n - 1) in st.shards;
    }
  }

  /** A reader that looks for more shards than were written finds no more. */
  lemma {:induction false} NoneValidBeyond(
    c: Config, d: Config, st: StoreState, id: ObjectID, i: u32, stripe: seq<byte>, n: nat)
    requires Reads(d, c) && |stripe| <= c.stripeSize && StripeEroded(c, st, id, i, stripe)
    requires c.params.ShardCount() <= n < MAX_U32
    ensures ValidCount(d, st, id, i, n) == ValidCount(d, st, id, i, c.params.ShardCount())
    decreases n
  {
    hide Stored, MaybeRotten;
    if n > c.params.ShardCount() {
      NoneValidBeyond(c, d, st, id, i, stripe, n - 1);
    }
  }
}
