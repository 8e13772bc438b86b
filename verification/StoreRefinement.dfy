/** The disk store answers every sequence of operations and faults as the in-memory store does. */
module StoreRefinement {
  import opened Bytes
  import opened Types
  import opened ErasureCoding
  import opened Header
  import opened Listing
  import opened StoreModel
  import opened MemStores
  import opened FileStores
  import opened ShardStores

  datatype StoreOp =
    | PutShard(key: ShardKey, h: ShardHeader, data: seq<byte>)
    | GetShard(key: ShardKey)
    | VerifyShard(key: ShardKey)
    | DeleteShard(key: ShardKey)
    | ListShards
    | ListObjectShards(id: ObjectID)
    | WriteMarker(id: ObjectID, m: ObjectMeta)
    | ReadMarker(id: ObjectID)
    | RemoveMarker(id: ObjectID)
    | Rot(key: ShardKey, payload: seq<byte>)

  datatype Answer =
    | Done(done: Result<()>)
    | Fetched(shard: Result<StoredShard>)
    | Checked(header: Result<ShardHeader>)
    | Keys(keys: Result<seq<ShardKey>>)
    | Marker(marker: Result<ObjectMeta>)

  /** Headers the disk format can carry, and shard counts that fit in 16 bits. */
  predicate Portable(op: StoreOp) {
    match op
    case PutShard(_, h, _) => Encodable(h)
    case WriteMarker(_, m) => OnDisk(m) == m
    case _ => true
  }

  /** The object an operation names, if it names one. */
  function Names(op: StoreOp): Result<ObjectID> {
    match op
    case PutShard(key, _, _) => Ok(key.objectID)
    case GetShard(key) => Ok(key.objectID)
    case VerifyShard(key) => Ok(key.objectID)
    case DeleteShard(key) => Ok(key.objectID)
    case WriteMarker(id, _) => Ok(id)
    case ReadMarker(id) => Ok(id)
    case RemoveMarker(id) => Ok(id)
    case Rot(key, _) => Ok(key.objectID)
    case _ => Err(ObjectNotFound)
  }

  /** What an operation leaves in the store. */
  function Effect(hash: StoreModel.Hash, st: StoreState, op: StoreOp): StoreState {
    match op
    case PutShard(key, h, data) => if Mismatch(key, h, |data|).Ok? then WithShard(hash, st, key, h, data) else st
    case DeleteShard(key) => WithoutShard(st, key)
    case WriteMarker(id, m) => WithMarker(st, id, m)
    case RemoveMarker(id) => WithoutMarker(st, id)
    case Rot(key, payload) => WithPayload(st, key, payload)
    case _ => st
  }

  /** What an operation answers: listings are given by their set of keys. */
  ghost predicate IsAnswer(hash: StoreModel.Hash, st: StoreState, op: StoreOp, a: Answer) {
    match op
    case PutShard(key, h, data) => a == Done(Mismatch(key, h, |data|))
    case GetShard(key) => a == Fetched(Lookup(hash, st, key))
    case VerifyShard(key) => a == Checked(HeaderOnly(Lookup(hash, st, key)))
    case DeleteShard(key) => a == Done(if key in st.shards then Ok(()) else Err(ShardNotFound))
    case ListShards => a.Keys? && a.keys.Ok? && IsListing(a.keys.value, st.shards.Keys)
    case ListObjectShards(id) => a.Keys? && a.keys.Ok? && IsListing(a.keys.value, KeysOf(st.shards.Keys, id))
    case ReadMarker(id) => a == Marker(MarkerOf(st, id))
    case _ => a == Done(Ok(()))
  }

  lemma AnswersAgree(hash: StoreModel.Hash, st: StoreState, op: StoreOp, a: Answer, b: Answer)
    requires IsAnswer(hash, st, op, a) && IsAnswer(hash, st, op, b)
    ensures a == b
  {
    hide IsListing, Lookup;
    if op.ListShards? {
      ListingUnique(a.keys.value, b.keys.value, st.shards.Keys);
    } else if op.ListObjectShards? {
      ListingUnique(a.keys.value, b.keys.value, KeysOf(st.shards.Keys, op.id));
    }
  }

  /** Performs one operation with a live context. */
  method Perform(store: ShardStore, op: StoreOp) returns (a: Answer)
    requires store.Valid() && Portable(op) && (Names(op).Ok? ==> store.Admits(Names(op).value))
    modifies store.Repr()
    ensures store.Valid() && fresh(store.Repr() - old(store.Repr()))
    ensures store.State() == Effect(store.Hash(), old(store.State()), op)
    ensures IsAnswer(store.Hash(), old(store.State()), op, a)
  {
    hide MemStore.Valid, FileStore.Valid, IsListing, WithShard, WithoutShard, WithMarker, WithoutMarker,
         WithPayload, Lookup, Encodable;
    match op
    case PutShard(key, h, data) =>
      var buf := Copied(data);
      assert buf[0..|data|] == data;
      var r := store.PutShard(Live, key, h, Slice(buf, 0, |data|));
      a := Done(r);
    case GetShard(key) =>
      var r := store.GetShard(key);
      a := Fetched(r);
    case VerifyShard(key) =>
      var r := store.VerifyShard(key);
      a := Checked(r);
    case DeleteShard(key) =>
      var r := store.DeleteShard(key);
      a := Done(r);
    case ListShards =>
      var r := store.ListShards();
      a := Keys(r);
    case ListObjectShards(id) =>
      var r := store.ListObjectShards(id);
      a := Keys(r);
    case WriteMarker(id, m) =>
      store.WriteMarker(id, m);
      a := Done(Ok(()));
    case ReadMarker(id) =>
      var r := store.ReadMarker(id);
      a := Marker(r);
    case RemoveMarker(id) =>
      store.RemoveMarker(id);
      a := Done(Ok(()));
    case Rot(key, payload) =>
      store.Rot(key, payload);
      a := Done(Ok(()));
  }

  /** Every sequence of operations and faults gets the same answers from both stores and leaves the same contents. */
  method Lockstep(mem: MemStore, disk: FileStore, ops: seq<StoreOp>) returns (fromMem: seq<Answer>, fromDisk: seq<Answer>)
    requires mem.Valid() && disk.Valid() && disk !in mem.Repr
    requires mem.hash == disk.hash && mem.State == disk.State
    requires forall op :: op in ops ==> Portable(op) && (Names(op).Ok? ==> Names(op).value in disk.ids)
    modifies mem.Repr, disk
    ensures fromMem == fromDisk && |fromMem| == |ops|
    ensures mem.Valid() && disk.Valid() && mem.State == disk.State
  {
    hide MemStore.Valid, FileStore.Valid, Effect, IsAnswer, Portable, Names;
    fromMem, fromDisk := [], [];
    for i := 0 to |ops|
      invariant mem.Valid() && disk.Valid() && mem.State == disk.State && disk !in mem.Repr
      invariant fresh(mem.Repr - old(mem.Repr))
      invariant fromMem == fromDisk && |fromMem| == i
    {
      ghost var st := mem.State;
      var a := Perform(Mem(mem), ops[i]);
      var b := Perform(Disk(disk), ops[i]);
      AnswersAgree(mem.hash, st, ops[i], a, b);
      fromMem, fromDisk := fromMem + [a], fromDisk + [b];
    }
  }
}
