/** How many shards may be lost or rotten: the promise of the scheme, counted in shards of every stripe. */
module Tolerance {
  import opened Bytes
  import opened Types
  import opened StoreModel
  import opened ObjectModel
  import opened Placement
  import opened Recovery
  import opened Reading
  import opened Durability

  /** The shards of a stripe, of n, that are not there or do not hash to the checksum in their header. */
  ghost function Damaged(hash: StoreModel.Hash, st: StoreState, id: ObjectID, i: u32, n: nat): set<nat>
    requires n < MAX_U32
  {
    set j | 0 <= j < n && !Sound(hash, st, id, i, j)
  }

  predicate Sound(hash: StoreModel.Hash, st: StoreState, id: ObjectID, i: u32, j: u32) {
    var k := ShardKey(id, i, j);
    k in st.shards && hash(st.shards[k].data) == st.shards[k].h.checksum
  }

  /** What is not damaged is valid. */
  lemma {:induction false} ValidOrDamaged(d: Config, st: StoreState, id: ObjectID, i: u32, n: nat)
    requires n < MAX_U32
    ensures ValidCount(d, st, id, i, n) + |Damaged(d.hash, st, id, i, n)| == n
    decreases n
  {
    if n == 0 {
      assert Damaged(d.hash, st, id, i, n) == {};
    } else {
      ValidOrDamaged(d, st, id, i, n - 1);
      assert Damaged(d.hash, st, id, i, n) ==
        Damaged(d.hash, st, id, i, n - 1) + if Sound(d.hash, st, id, i, n - 1) then {} else {n - 1};
    }
  }

  /**
   * What faults can do to the shards of an object: any may be gone, the others keep their header, and their payload or one
   * as long with another hash. The marker stays.
   */
  ghost predicate Faulted(hash: StoreModel.Hash, before: StoreState, after: StoreState, id: ObjectID) {
    && id in before.markers && id in after.markers && after.markers[id] == before.markers[id]
    && forall k :: k in after.shards && k.objectID == id ==>
         && k in before.shards && after.shards[k].h == before.shards[k].h
         && |after.shards[k].data| == |before.shards[k].data|
         && (after.shards[k].data == before.shards[k].data || hash(after.shards[k].data) != after.shards[k].h.checksum)
  }

  lemma FaultedIsEroded(c: Config, before: StoreState, after: StoreState, id: ObjectID, data: seq<byte>)
    requires Fits(c, data) && Eroded(c, before, id, data) && Complete(c, before, id, data)
    requires Faulted(c.hash, before, after, id)
    ensures Eroded(c, after, id, data)
  {
    hide Ideal, StripeCount;
  }

  ghost predicate AtMostParity(c: Config, st: StoreState, id: ObjectID, n: nat)
    requires c.Valid()
  {
    forall i: u32 :: i * c.stripeSize < n ==>
      |Damaged(c.hash, st, id, i, c.params.dataShards + c.params.parityShards)| <= c.params.parityShards
  }

  /**
   * The promise of k+m: an object that was put reads back, whatever faults befall it, exactly as long as no stripe has more
   * than m of its k+m shards lost or rotten.
   */
  lemma ToleratesParity(c: Config, st: StoreState, after: StoreState, id: ObjectID, data: seq<byte>)
    requires Fits(c, data) && id != [] && NoneBeyond(c, st, id, StripeCount(|data|, c.stripeSize))
    requires Faulted(c.hash, PutAll(c, st, id, data), after, id)
    ensures ReadAll(c, after, id) == Outcome.Done(data) <==> AtMostParity(c, after, id, |data|)
  {
    hide StripeCount, PutAll, ReadAll, Eroded, Complete, NoneBeyond, Damaged, Faulted, ValidCount;
    PutCompletes(c, st, id, data);
    FaultedIsEroded(c, PutAll(c, st, id, data), after, id, data);
    ReadsBackExactly(c, c, after, id, data);
    forall i: u32
      ensures i < StripeCount(|data|, c.stripeSize) <==> i * c.stripeSize < |data|
      ensures Recoverable(c, after, id, i) <==>
        |Damaged(c.hash, after, id, i, c.params.dataShards + c.params.parityShards)| <= c.params.parityShards
    {
      StripeOf(|data|, c.stripeSize, i);
      ValidOrDamaged(c, after, id, i, c.params.dataShards + c.params.parityShards);
    }
  }
}
