/** What a client of either shard store observes: each operation told by the answers to later ones. */
module StoreLaws {
  import opened Bytes
  import opened Types
  import opened Listing
  import opened StoreModel
  import opened StoreRefinement

  /** The shard a put is to leave: the given header, summed, over the given bytes. */
  function Summed(hash: StoreModel.Hash, h: ShardHeader, data: seq<byte>): StoredShard {
    StoredShard(h.(checksum := hash(data)), data)
  }

  predicate Accepted(key: ShardKey, h: ShardHeader, data: seq<byte>) { key.objectID == h.objectID && |data| == h.dataLen }

  /** A put succeeds exactly when the header belongs to the key and the payload; a get then answers what was put. */
  lemma GetAfterPut(
    hash: StoreModel.Hash, st: StoreState, key: ShardKey, h: ShardHeader, data: seq<byte>, other: ShardKey,
    put: Answer, got: Answer)
    requires IsAnswer(hash, st, PutShard(key, h, data), put)
    requires IsAnswer(hash, Effect(hash, st, PutShard(key, h, data)), GetShard(other), got)
    ensures put == Done(if key.objectID != h.objectID then Err(KeyHeaderMismatch)
                        else if |data| != h.dataLen then Err(PayloadLength) else Ok(()))
    ensures if Accepted(key, h, data) && other == key then got == Fetched(Ok(Summed(hash, h, data)))
            else IsAnswer(hash, st, GetShard(other), got)
  {
  }

  /** Bit rot that changes the hash is seen: a get answers corrupt, with the header that was put, and so does a verification. */
  lemma RotIsSeen(
    hash: StoreModel.Hash, st: StoreState, key: ShardKey, h: ShardHeader, data: seq<byte>, payload: seq<byte>,
    got: Answer, verified: Answer)
    requires Accepted(key, h, data) && |payload| == |data|
    requires var rotten := Effect(hash, Effect(hash, st, PutShard(key, h, data)), Rot(key, payload));
      IsAnswer(hash, rotten, GetShard(key), got) && IsAnswer(hash, rotten, VerifyShard(key), verified)
    ensures hash(payload) != hash(data) ==>
      && got == Fetched(Err(CorruptShard(h.(checksum := hash(data)))))
      && verified == Checked(Err(CorruptShard(h.(checksum := hash(data)))))
    ensures hash(payload) == hash(data) ==>
      && got == Fetched(Ok(StoredShard(h.(checksum := hash(data)), payload)))
      && verified == Checked(Ok(h.(checksum := hash(data))))
  {
  }

  /** Rot and deletion of a shard show at no other key. */
  lemma OthersUntouched(hash: StoreModel.Hash, st: StoreState, op: StoreOp, key: ShardKey, other: ShardKey, got: Answer)
    requires op == DeleteShard(key) || (op.Rot? && op.key == key)
    requires other != key && IsAnswer(hash, Effect(hash, st, op), GetShard(other), got)
    ensures IsAnswer(hash, st, GetShard(other), got)
  {
  }

  /** A deleted shard is missing, to a get and to another delete; a delete of a missing one says so and changes nothing. */
  lemma DeletedIsMissing(hash: StoreModel.Hash, st: StoreState, key: ShardKey, deleted: Answer, got: Answer, again: Answer)
    requires IsAnswer(hash, st, DeleteShard(key), deleted)
    requires var rest := Effect(hash, st, DeleteShard(key));
      IsAnswer(hash, rest, GetShard(key), got) && IsAnswer(hash, rest, DeleteShard(key), again)
    ensures got == Fetched(Err(ShardNotFound)) && again == Done(Err(ShardNotFound))
    ensures IsAnswer(hash, st, GetShard(key), Fetched(Err(ShardNotFound))) <==> deleted == Done(Err(ShardNotFound))
    ensures deleted == Done(Err(ShardNotFound)) ==> Effect(hash, st, DeleteShard(key)) == st
  {
    assert deleted == Done(Err(ShardNotFound)) ==> st.shards - {key} == st.shards;
  }

  /** A listing names exactly the shards that a get does not call missing. */
  lemma ListedIsStored(hash: StoreModel.Hash, st: StoreState, key: ShardKey, listed: Answer, got: Answer)
    requires IsAnswer(hash, st, ListShards, listed) && IsAnswer(hash, st, GetShard(key), got)
    ensures listed.Keys? && listed.keys.Ok?
    ensures key in listed.keys.value <==> got != Fetched(Err(ShardNotFound))
  {
    hide StrictlySorted;
  }

  /** A listing of an object holds what the whole listing holds of it; the empty id stands for all objects. */
  lemma ObjectListing(hash: StoreModel.Hash, st: StoreState, id: ObjectID, all: Answer, some: Answer)
    requires IsAnswer(hash, st, ListShards, all) && IsAnswer(hash, st, ListObjectShards(id), some)
    ensures all.Keys? && all.keys.Ok? && some.Keys? && some.keys.Ok?
    ensures forall k :: k in some.keys.value <==> k in all.keys.value && (id == [] || k.objectID == id)
  {
    hide StrictlySorted;
  }

  /** A marker is read as it was written until it is removed or written again, and then is not found. */
  lemma MarkerIsKept(
    hash: StoreModel.Hash, st: StoreState, id: ObjectID, m: ObjectMeta, other: ObjectID, read: Answer, gone: Answer)
    requires IsAnswer(hash, Effect(hash, st, WriteMarker(id, m)), ReadMarker(other), read)
    requires IsAnswer(hash, Effect(hash, st, RemoveMarker(id)), ReadMarker(other), gone)
    ensures if other == id then read == Marker(Ok(m)) && gone == Marker(Err(ObjectNotFound))
            else IsAnswer(hash, st, ReadMarker(other), read) && IsAnswer(hash, st, ReadMarker(other), gone)
  {
  }

  /** Operations on shards leave the markers, and operations on markers the shards. */
  lemma ShardsAndMarkersApart(hash: StoreModel.Hash, st: StoreState, op: StoreOp)
    ensures op.PutShard? || op.DeleteShard? || op.Rot? ==> Effect(hash, st, op).markers == st.markers
    ensures op.WriteMarker? || op.RemoveMarker? ==> Effect(hash, st, op).shards == st.shards
    ensures op.GetShard? || op.VerifyShard? || op.ListShards? || op.ListObjectShards? || op.ReadMarker? ==>
      Effect(hash, st, op) == st
  {
  }
}
