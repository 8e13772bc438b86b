/** The in-memory shard store: a map to headers and payload buffers of its own. */
module MemStores {
  import opened Bytes
  import opened Types
  import opened ErasureCoding
  import opened Listing
  import opened StoreModel

  datatype MemShard = MemShard(h: ShardHeader, data: array<byte>)

  method Copied(s: seq<byte>) returns (a: array<byte>)
    ensures fresh(a) && a[..] == s
  {
    a := new byte[|s|](i requires 0 <= i < |s| => s[i]);
  }

  class MemStore {
    const hash: Hash
    var shards: map<ShardKey, MemShard>
    var markers: map<ObjectID, ObjectMeta>

    ghost var State: StoreState
    ghost var Repr: set<object>

    ghost predicate Valid()
      reads this, Repr
      ensures Valid() ==> this in Repr
    {
      && this in Repr
      && (forall k :: k in shards ==> shards[k].data in Repr)
      && State.shards.Keys == shards.Keys
      && (forall k :: k in shards ==> State.shards[k] == StoredShard(shards[k].h, shards[k].data[..]))
      && State.markers == markers
      && WellFormed(State)
    }

    constructor (hash: Hash)
      ensures Valid() && fresh(Repr)
      ensures this.hash == hash && State == EMPTY
    {
      this.hash := hash;
      shards, markers := map[], map[];
      State, Repr := EMPTY, {this};
    }

    /** Stores a copy of the payload; the caller may reuse its buffer afterwards. */
    method PutShard(ctx: Context, key: ShardKey, h: ShardHeader, data: Slice) returns (r: Result<()>)
      requires Valid() && data.Valid()
      modifies this
      ensures Valid() && fresh(Repr - old(Repr))
      ensures r == Mismatch(key, h, data.Length())
      ensures State == if r.Ok? then WithShard(hash, old(State), key, h, data.View()) else old(State)
    {
      if key.objectID != h.objectID {
        return Err(KeyHeaderMismatch);
      }
      if data.Length() != h.dataLen {
        return Err(PayloadLength);
      }
      var payload := data.a[data.lo..data.hi];
      Replace(key, h.(checksum := hash(payload)), payload);
      return Ok(());
    }

    /** Puts a fresh copy of the payload under the key. */
    method Replace(key: ShardKey, h: ShardHeader, payload: seq<byte>)
      requires Valid() && h.objectID == key.objectID && |payload| == h.dataLen
      modifies this
      ensures Valid() && fresh(Repr - old(Repr))
      ensures State == old(State).(shards := old(State).shards[key := StoredShard(h, payload)])
    {
      var cp := Copied(payload);
      ghost var before := shards;
      shards := shards[key := MemShard(h, cp)];
      State := State.(shards := State.shards[key := StoredShard(h, payload)]);
      Repr := Repr + {cp};
      forall k | k in shards
        ensures shards[k].data in Repr && State.shards[k] == StoredShard(shards[k].h, shards[k].data[..])
      {
        if k != key {
          assert k in before && shards[k] == before[k];
        }
      }
    }

    method GetShard(key: ShardKey) returns (r: Result<StoredShard>)
      requires Valid()
      ensures r == Lookup(hash, State, key)
      ensures match r
        case Ok(s) => key in State.shards && s == State.shards[key] && hash(s.data) == s.h.checksum
        case Err(CorruptShard(h)) =>
          key in State.shards && h == State.shards[key].h && hash(State.shards[key].data) != h.checksum
        case Err(e) => e == ShardNotFound && key !in State.shards
    {
      if key !in shards {
        return Err(ShardNotFound);
      }
      var s := shards[key];
      if hash(s.data[..]) != s.h.checksum {
        return Err(CorruptShard(s.h));
      }
      return Ok(StoredShard(s.h, s.data[..]));
    }

    method VerifyShard(key: ShardKey) returns (r: Result<ShardHeader>)
      requires Valid()
      ensures r == HeaderOnly(Lookup(hash, State, key))
      ensures match r
        case Ok(h) => key in State.shards && h == State.shards[key].h && hash(State.shards[key].data) == h.checksum
        case Err(CorruptShard(h)) =>
          key in State.shards && h == State.shards[key].h && hash(State.shards[key].data) != h.checksum
        case Err(e) => e == ShardNotFound && key !in State.shards
    {
      if key !in shards {
        return Err(ShardNotFound);
      }
      var s := shards[key];
      if hash(s.data[..]) != s.h.checksum {
        return Err(CorruptShard(s.h));
      }
      return Ok(s.h);
    }

    method DeleteShard(key: ShardKey) returns (r: Result<()>)
      requires Valid()
      modifies this
      ensures Valid() && Repr == old(Repr)
      ensures r == if key in old(State).shards then Ok(()) else Err(ShardNotFound)
      ensures State == WithoutShard(old(State), key)
    {
      State := WithoutShard(State, key);
      if key !in shards {
        assert State == old(State);
        return Err(ShardNotFound);
      }
      shards := shards - {key};
      return Ok(());
    }

    /** Gathers the keys in any order and sorts them. */
    method ListShards() returns (keys: seq<ShardKey>)
      requires Valid()
      ensures IsListing(keys, State.shards.Keys)
    {
      var rest := shards.Keys;
      var found: seq<ShardKey> := [];
      while rest != {}
        invariant rest <= shards.Keys
        invariant forall k :: k in found <==> k in shards.Keys - rest
        invariant forall i, j :: 0 <= i < j < |found| ==> found[i] != found[j]
        decreases rest
      {
        var k :| k in rest;
        assert k !in found;
        rest := rest - {k};
        found := found + [k];
      }
      keys := SortKeys(found);
      assert Elements(found) == State.shards.Keys;
    }

    method ListObjectShards(id: ObjectID) returns (keys: seq<ShardKey>)
      requires Valid()
      ensures IsListing(keys, KeysOf(State.shards.Keys, id))
    {
      var all := ListShards();
      keys := FilterKeys(all, id, State.shards.Keys);
    }

    method WriteMarker(id: ObjectID, m: ObjectMeta)
      requires Valid()
      modifies this
      ensures Valid() && Repr == old(Repr)
      ensures State == WithMarker(old(State), id, m)
    {
      markers := markers[id := m];
      State := WithMarker(State, id, m);
    }

    method ReadMarker(id: ObjectID) returns (r: Result<ObjectMeta>)
      requires Valid()
      ensures r == MarkerOf(State, id)
    {
      if id !in markers {
        return Err(ObjectNotFound);
      }
      return Ok(markers[id]);
    }

    method RemoveMarker(id: ObjectID)
      requires Valid()
      modifies this
      ensures Valid() && Repr == old(Repr)
      ensures State == WithoutMarker(old(State), id)
    {
      markers := markers - {id};
      State := WithoutMarker(State, id);
    }

    /** The environment's fault: a stored payload is replaced by one as long, the header kept. */
    method Rot(key: ShardKey, payload: seq<byte>)
      requires Valid()
      modifies this
      ensures Valid() && fresh(Repr - old(Repr))
      ensures State == WithPayload(old(State), key, payload)
    {
      if key in shards && |payload| == shards[key].data.Length {
        Replace(key, shards[key].h, payload);
      }
    }
  }
}
