/** What a shard store holds, and what its operations mean on that. */
module StoreModel {
  import opened Bytes
  import opened Types

  /** SHA-256, of which nothing is assumed. */
  type Hash = seq<byte> -> Digest

  /** A context that is never cancelled, or one that is after so many more checks of it. */
  datatype Context = Live | CancelledAfter(checks: nat) {
    predicate Done() { this == CancelledAfter(0) }

    /** The context after n checks. */
    function Checked(n: nat): Context {
      if Live? then Live else CancelledAfter(if checks >= n then checks - n else 0)
    }
  }

  datatype StoredShard = StoredShard(h: ShardHeader, data: seq<byte>)

  datatype StoreState = StoreState(shards: map<ShardKey, StoredShard>, markers: map<ObjectID, ObjectMeta>)

  const EMPTY := StoreState(map[], map[])

  predicate Intact(hash: Hash, s: StoredShard) { hash(s.data) == s.h.checksum }

  /** Reading a shard: absent, failing its checksum, or the stored header and payload. */
  function Lookup(hash: Hash, st: StoreState, key: ShardKey): Result<StoredShard> {
    if key !in st.shards then Err(ShardNotFound)
    else if !Intact(hash, st.shards[key]) then Err(CorruptShard(st.shards[key].h))
    else Ok(st.shards[key])
  }

  function HeaderOnly(r: Result<StoredShard>): Result<ShardHeader> {
    match r
    case Ok(s) => Ok(s.h)
    case Err(e) => Err(e)
  }

  /** Storing a shard stamps the header with the payload's checksum. */
  function WithShard(hash: Hash, st: StoreState, key: ShardKey, h: ShardHeader, data: seq<byte>): StoreState {
    st.(shards := st.shards[key := StoredShard(h.(checksum := hash(data)), data)])
  }

  function WithoutShard(st: StoreState, key: ShardKey): StoreState { st.(shards := st.shards - {key}) }

  /** Bit rot: the payload under a stored key is replaced by one of the same length; the header stays. */
  function WithPayload(st: StoreState, key: ShardKey, payload: seq<byte>): StoreState {
    if key in st.shards && |payload| == |st.shards[key].data|
    then st.(shards := st.shards[key := st.shards[key].(data := payload)])
    else st
  }

  function WithMarker(st: StoreState, id: ObjectID, m: ObjectMeta): StoreState { st.(markers := st.markers[id := m]) }

  function WithoutMarker(st: StoreState, id: ObjectID): StoreState { st.(markers := st.markers - {id}) }

  function MarkerOf(st: StoreState, id: ObjectID): Result<ObjectMeta> {
    if id in st.markers then Ok(st.markers[id]) else Err(ObjectNotFound)
  }

  /** Every payload has the length its header states, and sits under its own object's key. */
  ghost predicate WellFormed(st: StoreState) {
    forall k :: k in st.shards ==> st.shards[k].h.objectID == k.objectID && |st.shards[k].data| == st.shards[k].h.dataLen
  }

  /** Why a store turns a shard down before writing anything, if it does. */
  function Mismatch(key: ShardKey, h: ShardHeader, n: nat): Result<()> {
    if key.objectID != h.objectID then Err(KeyHeaderMismatch)
    else if n != h.dataLen then Err(PayloadLength)
    else Ok(())
  }
}
