/** How many payload bytes a stored object takes. */
module Overhead {
  import opened Bytes
  import opened Types
  import opened ReedSolomon
  import opened StoreModel
  import opened ObjectModel
  import opened Placement
  import opened Durability

  /** Payload bytes stored for the first n shards of a stripe. */
  function StripePayload(st: StoreState, id: ObjectID, i: u32, n: nat): nat
    requires n < MAX_U32
    decreases n
  {
    if n == 0 then 0
    else
      var k := ShardKey(id, i, n - 1);
      StripePayload(st, id, i, n - 1) + if k in st.shards then |st.shards[k].data| else 0
  }

  /** Payload bytes stored for the first t stripes of an object. */
  function ObjectPayload(c: Config, st: StoreState, id: ObjectID, t: nat): nat
    requires c.Valid() && t < MAX_U32
    decreases t
  {
    if t == 0 then 0 else ObjectPayload(c, st, id, t - 1) + StripePayload(st, id, t - 1, c.params.ShardCount())
  }

  lemma ShardPayloadIs(c: Config, st: StoreState, id: ObjectID, data: seq<byte>, i: u32, j: u32)
    requires Fits(c, data) && Complete(c, st, id, data)
    requires i < StripeCount(|data|, c.stripeSize) && j < c.params.ShardCount()
    ensures var k := ShardKey(id, i, j);
      k in st.shards && |st.shards[k].data| == SplitSize(|Cut(data, c.stripeSize, i)|, c.params.dataShards)
  {
    hide StripeCount, Cut, SplitSize, Cell;
    assert st.shards[ShardKey(id, i, j)] == Ideal(c, id, data, i, j);
  }

  lemma {:induction false} StripePayloadIs(c: Config, st: StoreState, id: ObjectID, data: seq<byte>, i: u32, n: nat)
    requires Fits(c, data) && Complete(c, st, id, data)
    requires i < StripeCount(|data|, c.stripeSize) && n <= c.params.ShardCount()
    ensures StripePayload(st, id, i, n) == n * SplitSize(|Cut(data, c.stripeSize, i)|, c.params.dataShards)
    decreases n
  {
    hide StripeCount, Cut, SplitSize, Complete;
    if n > 0 {
      StripePayloadIs(c, st, id, data, i, n - 1);
      ShardPayloadIs(c, st, id, data, i, n - 1);
      OneMore(n - 1, SplitSize(|Cut(data, c.stripeSize, i)|, c.params.dataShards));
    }
  }

  lemma OneMore(n: nat, size: nat)
    ensures (n + 1) * size == n * size + size
  {
  }

  lemma MulMonotone(a: nat, b: nat, size: nat)
    requires a <= b
    ensures a * size <= b * size
  {
  }

  /** Scaling len <= k*size <= len + k - 1 by the number of shards. */
  lemma Scaled(n: nat, k: nat, size: nat, len: nat)
    requires k >= 1 && len <= k * size <= len + (k - 1)
    ensures n * len <= k * (n * size) <= n * len + n * (k - 1)
  {
    assert k * (n * size) == n * (k * size);
    MulMonotone(len, k * size, n);
    MulMonotone(k * size, len + (k - 1), n);
    assert (len + (k - 1)) * n == n * len + n * (k - 1);
  }

  lemma {:induction false} PayloadBounds(c: Config, st: StoreState, id: ObjectID, data: seq<byte>, t: nat)
    requires Fits(c, data) && Complete(c, st, id, data) && t <= StripeCount(|data|, c.stripeSize)
    ensures var n, k := c.params.ShardCount(), c.params.dataShards;
      var r, len := ObjectPayload(c, st, id, t), |Prefix(data, c.stripeSize, t)|;
      n * len <= k * r <= n * len + t * (n * (k - 1))
    decreases t
  {
    hide StripeCount, Cut, SplitSize, Complete, Prefix, StripePayload, Offset;
    var n, k := c.params.ShardCount(), c.params.dataShards;
    PrefixWhole(data, c.stripeSize);
    if t > 0 {
      var before, s := ObjectPayload(c, st, id, t - 1), |Cut(data, c.stripeSize, t - 1)|;
      var size := SplitSize(s, k);
      assert ObjectPayload(c, st, id, t) == before + n * size by {
        StripePayloadIs(c, st, id, data, t - 1, n);
      }
      assert |Prefix(data, c.stripeSize, t)| == |Prefix(data, c.stripeSize, t - 1)| + s by {
        PrefixGrows(data, c.stripeSize, t - 1);
      }
      assert s <= k * size <= s + (k - 1) by {
        SplitSizeCovers(s, k);
        OffsetIsProduct(k, size);
      }
      PayloadBounds(c, st, id, data, t - 1);
      hide ObjectPayload;
      BoundsStep(n, k, t, before, |Prefix(data, c.stripeSize, t - 1)|, size, s);
    }
  }

  lemma BoundsStep(n: nat, k: nat, t: nat, before: nat, len: nat, size: nat, s: nat)
    requires k >= 1 && t > 0 && s <= k * size <= s + (k - 1)
    requires n * len <= k * before <= n * len + (t - 1) * (n * (k - 1))
    ensures n * (len + s) <= k * (before + n * size) <= n * (len + s) + t * (n * (k - 1))
  {
    Scaled(n, k, size, s);
    assert k * (before + n * size) == k * before + k * (n * size);
    assert n * (len + s) == n * len + n * s;
    assert t * (n * (k - 1)) == (t - 1) * (n * (k - 1)) + n * (k - 1);
  }

  /** A put of n bytes in t stripes stores R payload bytes with (k+m)*n <= k*R <= (k+m)*(n + t*(k-1)). */
  lemma StorageBound(c: Config, st: StoreState, id: ObjectID, data: seq<byte>)
    requires Fits(c, data)
    ensures var t, k, n := StripeCount(|data|, c.stripeSize), c.params.dataShards, c.params.dataShards + c.params.parityShards;
      var r := ObjectPayload(c, PutAll(c, st, id, data), id, t);
      n * |data| <= k * r <= n * (|data| + t * (k - 1))
  {
    hide StripeCount, PutAll, ObjectPayload, Complete, Eroded;
    var t, n, k := StripeCount(|data|, c.stripeSize), c.params.ShardCount(), c.params.dataShards;
    PutCompletes(c, st, id, data);
    PayloadBounds(c, PutAll(c, st, id, data), id, data, t);
    PrefixWhole(data, c.stripeSize);
    assert n * (|data| + t * (k - 1)) == n * |data| + n * (t * (k - 1));
    assert t * (n * (k - 1)) == n * (t * (k - 1));
  }
}
