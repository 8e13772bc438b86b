/** The shard store interface over its two implementations, with one contract for both. */
module ShardStores {
  import opened Bytes
  import opened Types
  import opened ErasureCoding
  import opened Header
  import opened Listing
  import opened StoreModel
  import opened MemStores
  import opened FileStores

  datatype ShardStore = Mem(mem: MemStore) | Disk(disk: FileStore) {

    ghost function Repr(): set<object>
      reads if Mem? then {mem as object} else {}
    {
      if Mem? then mem.Repr else {disk}
    }

    ghost predicate Valid()
      reads if Mem? then {mem as object} else {disk}
      reads Repr()
    {
      if Mem? then mem.Valid() else disk.Valid()
    }

    ghost function State(): StoreState
      reads if Mem? then {mem as object} else {disk}
    {
      if Mem? then mem.State else disk.State
    }

    ghost function Hash(): StoreModel.Hash { if Mem? then mem.hash else disk.hash }

    /** The disk store is used with ids that do not share a directory. */
    ghost predicate Admits(id: ObjectID) { Disk? ==> id in disk.ids }

    /** Markers lose the high bits of their shard counts on disk. */
    function Kept(m: ObjectMeta): ObjectMeta { if Mem? then m else OnDisk(m) }

    /** What storing a shard answers; nothing is stored unless it is Ok. */
    function Admission(ctx: Context, key: ShardKey, h: ShardHeader, n: nat): Result<()> {
      if Disk? && ctx.Done() then Err(ContextDone)
      else if Mismatch(key, h, n).Err? then Mismatch(key, h, n)
      else if Disk? && !Encodable(h) then Err(BadHeader)
      else Ok(())
    }

    /** Every stored key belongs to an admitted object. */
    lemma KeysAdmitted()
      requires Valid()
      ensures forall k :: k in State().shards ==> Admits(k.objectID)
    {
      if Disk? {
        forall k | k in disk.State.shards
          ensures k.objectID in disk.ids
        {
          disk.KeyHasFile(k);
        }
      }
    }

    method PutShard(ctx: Context, key: ShardKey, h: ShardHeader, data: Slice) returns (r: Result<()>)
      requires Valid() && data.Valid() && Admits(key.objectID)
      modifies Repr()
      ensures Valid() && fresh(Repr() - old(Repr()))
      ensures r == Admission(ctx, key, h, data.Length())
      ensures State() == if r.Ok? then WithShard(Hash(), old(State()), key, h, old(data.View())) else old(State())
    {
      hide MemStore.Valid, FileStore.Valid, WithShard, Encodable;
      match this
      case Mem(_) => r := mem.PutShard(ctx, key, h, data);
      case Disk(_) => r := disk.PutShard(ctx, key, h, data);
    }

    method GetShard(key: ShardKey) returns (r: Result<StoredShard>)
      requires Valid() && Admits(key.objectID)
      ensures r == Lookup(Hash(), State(), key)
      ensures match r
        case Ok(s) => key in State().shards && s == State().shards[key] && Hash()(s.data) == s.h.checksum
        case Err(CorruptShard(h)) =>
          key in State().shards && h == State().shards[key].h && Hash()(State().shards[key].data) != h.checksum
        case Err(e) => e == ShardNotFound && key !in State().shards
    {
      match this
      case Mem(_) => r := mem.GetShard(key);
      case Disk(_) => r := disk.GetShard(key);
    }

    method VerifyShard(key: ShardKey) returns (r: Result<ShardHeader>)
      requires Valid() && Admits(key.objectID)
      ensures r == HeaderOnly(Lookup(Hash(), State(), key))
      ensures match r
        case Ok(h) => key in State().shards && h == State().shards[key].h && Hash()(State().shards[key].data) == h.checksum
        case Err(CorruptShard(h)) =>
          key in State().shards && h == State().shards[key].h && Hash()(State().shards[key].data) != h.checksum
        case Err(e) => e == ShardNotFound && key !in State().shards
    {
      match this
      case Mem(_) => r := mem.VerifyShard(key);
      case Disk(_) => r := disk.VerifyShard(key);
    }

    method DeleteShard(key: ShardKey) returns (r: Result<()>)
      requires Valid() && Admits(key.objectID)
      modifies Repr()
      ensures Valid() && Repr() == old(Repr())
      ensures r == if key in old(State()).shards then Ok(()) else Err(ShardNotFound)
      ensures State() == WithoutShard(old(State()), key)
    {
      hide MemStore.Valid, FileStore.Valid, WithoutShard;
      match this
      case Mem(_) => r := mem.DeleteShard(key);
      case Disk(_) => r := disk.DeleteShard(key);
    }

    method ListShards() returns (r: Result<seq<ShardKey>>)
      requires Valid()
      ensures r.Ok? && IsListing(r.value, State().shards.Keys)
    {
      match this
      case Mem(_) =>
        var keys := mem.ListShards();
        r := Ok(keys);
      case Disk(_) => r := disk.ListShards();
    }

    method ListObjectShards(id: ObjectID) returns (r: Result<seq<ShardKey>>)
      requires Valid()
      ensures r.Ok? && IsListing(r.value, KeysOf(State().shards.Keys, id))
    {
      match this
      case Mem(_) =>
        var keys := mem.ListObjectShards(id);
        r := Ok(keys);
      case Disk(_) => r := disk.ListObjectShards(id);
    }

    method WriteMarker(id: ObjectID, m: ObjectMeta)
      requires Valid() && Admits(id)
      modifies Repr()
      ensures Valid() && Repr() == old(Repr())
      ensures State() == WithMarker(old(State()), id, Kept(m))
    {
      hide MemStore.Valid, FileStore.Valid, WithMarker, OnDisk;
      match this
      case Mem(_) => mem.WriteMarker(id, m);
      case Disk(_) => disk.WriteMarker(id, m);
    }

    method ReadMarker(id: ObjectID) returns (r: Result<ObjectMeta>)
      requires Valid() && Admits(id)
      ensures r == MarkerOf(State(), id)
    {
      match this
      case Mem(_) => r := mem.ReadMarker(id);
      case Disk(_) => r := disk.ReadMarker(id);
    }

    method RemoveMarker(id: ObjectID)
      requires Valid() && Admits(id)
      modifies Repr()
      ensures Valid() && Repr() == old(Repr())
      ensures State() == WithoutMarker(old(State()), id)
    {
      hide MemStore.Valid, FileStore.Valid, WithoutMarker;
      match this
      case Mem(_) => mem.RemoveMarker(id);
      case Disk(_) => disk.RemoveMarker(id);
    }

    method Rot(key: ShardKey, payload: seq<byte>)
      requires Valid() && Admits(key.objectID)
      modifies Repr()
      ensures Valid() && fresh(Repr() - old(Repr()))
      ensures State() == WithPayload(old(State()), key, payload)
    {
      hide MemStore.Valid, FileStore.Valid, WithPayload;
      match this
      case Mem(_) => mem.Rot(key, payload);
      case Disk(_) => disk.Rot(key, payload);
    }
  }
}
