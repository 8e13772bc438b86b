/** The on-disk shard store: one file per shard under a directory named by the hashed object id. */
module FileStores {
  import opened Bytes
  import opened Types
  import opened ErasureCoding
  import opened Header
  import opened FileNames
  import opened Listing
  import opened StoreModel

  datatype Path = Path(dir: string, name: string)

  function HexBytes(s: seq<byte>): string {
    if |s| == 0 then "" else Hex(ToInt(s[0]), 2) + HexBytes(s[1..])
  }

  /** The directory of an object: its hashed id, 20 bytes of it, in hexadecimal. */
  function ObjectDir(hash: Hash, id: ObjectID): string { HexBytes(hash(id)[..20]) }

  /** Two hexadecimal digits for every byte. */
  lemma {:induction false} HexBytesIs(s: seq<byte>, i: nat)
    requires i < |s|
    ensures |HexBytes(s)| == 2 * |s| && ToInt(s[i]) < 256
    ensures HexBytes(s)[2 * i] == "0123456789abcdef"[ToInt(s[i]) / 16]
    ensures HexBytes(s)[2 * i + 1] == "0123456789abcdef"[ToInt(s[i]) % 16]
    decreases |s|
  {
    hide ToInt, Hex;
    ToIntBound(s[0]);
    TwoDigits(ToInt(s[0]));
    if |s| > 1 {
      HexBytesIs(s[1..], if i > 0 then i - 1 else 0);
      if i > 0 {
        assert s[i] == s[1..][i - 1];
        assert HexBytes(s)[2 * i] == HexBytes(s[1..])[2 * (i - 1)] && HexBytes(s)[2 * i + 1] == HexBytes(s[1..])[2 * (i - 1) + 1];
      }
    }
  }

  lemma TwoDigits(n: nat)
    requires n < 256
    ensures Hex(n, 2) == ["0123456789abcdef"[n / 16], "0123456789abcdef"[n % 16]]
  {
    assert Hex(n / 16, 1) == Hex(n / 16 / 16, 0) + [Digit(n / 16 % 16)];
  }

  /** Two ids share a directory exactly when the first 20 bytes of their hashes agree. */
  lemma SameDirExactly(hash: Hash, a: ObjectID, b: ObjectID)
    ensures ObjectDir(hash, a) == ObjectDir(hash, b) <==> hash(a)[..20] == hash(b)[..20]
    ensures |ObjectDir(hash, a)| == 40
  {
    hide HexBytes, ToInt;
    var x, y := hash(a)[..20], hash(b)[..20];
    HexBytesIs(x, 0);
    if HexBytes(x) == HexBytes(y) {
      forall i | 0 <= i < 20
        ensures x[i] == y[i]
      {
        HexBytesIs(x, i);
        HexBytesIs(y, i);
        DigitsDiffer(ToInt(x[i]) / 16, ToInt(y[i]) / 16);
        DigitsDiffer(ToInt(x[i]) % 16, ToInt(y[i]) % 16);
        OfIntToInt(x[i]);
        OfIntToInt(y[i]);
      }
    }
  }

  lemma DigitsDiffer(a: nat, b: nat)
    requires a < 16 && b < 16 && "0123456789abcdef"[a] == "0123456789abcdef"[b]
    ensures a == b
  {
    DigitBack(a);
    DigitBack(b);
  }

  function ShardPath(hash: Hash, key: ShardKey): Path {
    Path(ObjectDir(hash, key.objectID), ShardFileName(key.stripeIdx, key.shardIdx))
  }

  function MarkerPath(hash: Hash, id: ObjectID): Path { Path(ObjectDir(hash, id), MARKER_NAME) }

  /** Where a shard and a marker lie: forty digits of directory, and the stripe before the shard in the name. */
  lemma PathsAre(hash: Hash, key: ShardKey)
    ensures var p, n := ShardPath(hash, key), |ShardPath(hash, key).name|;
      && p.dir == MarkerPath(hash, key.objectID).dir == HexBytes(hash(key.objectID)[..20])
      && n > 15 && p.name[8] == '-' && p.name[n - 6..] == ".shard"
      && DigitChars(p.name[..8], 16, key.stripeIdx) && DigitChars(p.name[9..n - 6], 10, key.shardIdx)
    ensures MarkerPath(hash, key.objectID).name == ".meta"
  {
    hide DigitChars, ShardFileName, HexBytes;
    NameIs(key.stripeIdx, key.shardIdx);
  }

  /** No two of the given ids share a directory. */
  ghost predicate DirsDistinct(hash: Hash, ids: iset<ObjectID>) {
    forall a, b :: a in ids && b in ids && ObjectDir(hash, a) == ObjectDir(hash, b) ==> a == b
  }

  lemma ShardPathsDiffer(hash: Hash, ids: iset<ObjectID>, a: ShardKey, b: ShardKey)
    requires DirsDistinct(hash, ids) && a.objectID in ids && b.objectID in ids
    requires ShardPath(hash, a) == ShardPath(hash, b)
    ensures a == b
  {
    hide ObjectDir, ShardFileName;
    GeneratedNamesDiffer((a.stripeIdx, a.shardIdx), (b.stripeIdx, b.shardIdx));
  }

  lemma MarkerPathsDiffer(hash: Hash, ids: iset<ObjectID>, a: ObjectID, b: ObjectID)
    requires DirsDistinct(hash, ids) && a in ids && b in ids
    requires MarkerPath(hash, a) == MarkerPath(hash, b)
    ensures a == b
  {
  }

  lemma ShardPathIsNoMarkerPath(hash: Hash, key: ShardKey, id: ObjectID)
    ensures ShardPath(hash, key) != MarkerPath(hash, id)
  {
    ShardNamesAreNotMarkers(key.stripeIdx, key.shardIdx);
  }

  /** The bytes of a shard file. */
  function ShardFile(s: StoredShard): seq<byte>
    requires |s.h.objectID| < 0x1_0000
  {
    Layout(s.h) + s.data
  }

  ghost predicate HoldsShard(hash: Hash, ids: iset<ObjectID>, files: map<Path, seq<byte>>, k: ShardKey, s: StoredShard) {
    && k.objectID in ids
    && Encodable(s.h)
    && s.h.objectID == k.objectID
    && |s.data| == s.h.dataLen
    && ShardPath(hash, k) in files
    && files[ShardPath(hash, k)] == ShardFile(s)
  }

  ghost predicate HoldsMarker(hash: Hash, ids: iset<ObjectID>, files: map<Path, seq<byte>>, id: ObjectID, m: ObjectMeta) {
    && id in ids
    && OnDisk(m) == m
    && MarkerPath(hash, id) in files
    && files[MarkerPath(hash, id)] == MarkerLayout(m)
  }

  ghost predicate Accounted(hash: Hash, st: StoreState, p: Path) {
    || (exists k :: k in st.shards && p == ShardPath(hash, k))
    || (exists id :: id in st.markers && p == MarkerPath(hash, id))
  }

  /** The files are exactly those of the state: each entry has its file and each file an entry. */
  ghost predicate Represents(hash: Hash, ids: iset<ObjectID>, files: map<Path, seq<byte>>, st: StoreState) {
    && (forall k :: k in st.shards ==> HoldsShard(hash, ids, files, k, st.shards[k]))
    && (forall id :: id in st.markers ==> HoldsMarker(hash, ids, files, id, st.markers[id]))
    && (forall p :: p in files ==> Accounted(hash, st, p))
  }

  /** The files determine the state: the same bytes cannot stand for two different stores. */
  lemma FilesDetermineState(hash: Hash, ids: iset<ObjectID>, files: map<Path, seq<byte>>, s: StoreState, t: StoreState)
    requires DirsDistinct(hash, ids) && Represents(hash, ids, files, s) && Represents(hash, ids, files, t)
    ensures s == t
  {
    hide Represents, DirsDistinct;
    ShardsAgree(hash, ids, files, s, t);
    ShardsAgree(hash, ids, files, t, s);
    assert s.shards == t.shards;
    assert s.markers == t.markers;
  }

  lemma ShardsAgree(hash: Hash, ids: iset<ObjectID>, files: map<Path, seq<byte>>, s: StoreState, t: StoreState)
    requires DirsDistinct(hash, ids) && Represents(hash, ids, files, s) && Represents(hash, ids, files, t)
    ensures forall k :: k in s.shards ==> k in t.shards && t.shards[k] == s.shards[k]
    ensures forall id :: id in s.markers ==> id in t.markers && t.markers[id] == s.markers[id]
  {
    hide ShardPath, MarkerPath, Layout, MarkerLayout, DirsDistinct;
    forall k | k in s.shards
      ensures k in t.shards && t.shards[k] == s.shards[k]
    {
      var p := ShardPath(hash, k);
      assert HoldsShard(hash, ids, files, k, s.shards[k]) && Accounted(hash, t, p);
      forall id | id in t.markers
        ensures p != MarkerPath(hash, id)
      {
        ShardPathIsNoMarkerPath(hash, k, id);
      }
      var k' :| k' in t.shards && p == ShardPath(hash, k');
      assert HoldsShard(hash, ids, files, k', t.shards[k']);
      ShardPathsDiffer(hash, ids, k, k');
      DecodeEncoded(s.shards[k].h, s.shards[k].data);
      DecodeEncoded(t.shards[k].h, t.shards[k].data);
    }
    forall id | id in s.markers
      ensures id in t.markers && t.markers[id] == s.markers[id]
    {
      var p := MarkerPath(hash, id);
      assert HoldsMarker(hash, ids, files, id, s.markers[id]) && Accounted(hash, t, p);
      forall k | k in t.shards
        ensures p != ShardPath(hash, k)
      {
        ShardPathIsNoMarkerPath(hash, k, id);
      }
      var id' :| id' in t.markers && p == MarkerPath(hash, id');
      assert HoldsMarker(hash, ids, files, id', t.markers[id']);
      MarkerPathsDiffer(hash, ids, id, id');
      ParseMarkerLayout(s.markers[id], files[p]);
      ParseMarkerLayout(t.markers[id], files[p]);
    }
  }

  // ----- Effects of single file operations on the represented state

  lemma ShardWritten(hash: Hash, ids: iset<ObjectID>, files: map<Path, seq<byte>>, st: StoreState, key: ShardKey, s: StoredShard)
    requires DirsDistinct(hash, ids) && Represents(hash, ids, files, st)
    requires key.objectID in ids && Encodable(s.h) && s.h.objectID == key.objectID && |s.data| == s.h.dataLen
    ensures Represents(hash, ids, files[ShardPath(hash, key) := ShardFile(s)], st.(shards := st.shards[key := s]))
  {
    hide ShardPath, MarkerPath, ShardFile, DirsDistinct, OnDisk, MarkerLayout;
    var p := ShardPath(hash, key);
    var files', st' := files[p := ShardFile(s)], st.(shards := st.shards[key := s]);
    forall k | k in st'.shards
      ensures HoldsShard(hash, ids, files', k, st'.shards[k])
    {
      if k != key {
        assert HoldsShard(hash, ids, files, k, st.shards[k]);
        if ShardPath(hash, k) == p {
          ShardPathsDiffer(hash, ids, k, key);
        }
      }
    }
    forall id | id in st'.markers
      ensures HoldsMarker(hash, ids, files', id, st'.markers[id])
    {
      assert HoldsMarker(hash, ids, files, id, st.markers[id]);
      ShardPathIsNoMarkerPath(hash, key, id);
    }
    forall q | q in files'
      ensures Accounted(hash, st', q)
    {
      if q == p {
        assert key in st'.shards;
      } else {
        StillAccounted(hash, st, st', q);
      }
    }
  }

  lemma StillAccounted(hash: Hash, st: StoreState, st': StoreState, q: Path)
    requires Accounted(hash, st, q)
    requires forall k :: k in st.shards && q == ShardPath(hash, k) ==> k in st'.shards
    requires forall id :: id in st.markers && q == MarkerPath(hash, id) ==> id in st'.markers
    ensures Accounted(hash, st', q)
  {
  }

  lemma ShardRemoved(hash: Hash, ids: iset<ObjectID>, files: map<Path, seq<byte>>, st: StoreState, key: ShardKey)
    requires DirsDistinct(hash, ids) && Represents(hash, ids, files, st) && key.objectID in ids
    ensures Represents(hash, ids, files - {ShardPath(hash, key)}, WithoutShard(st, key))
  {
    hide ShardPath, MarkerPath, ShardFile, DirsDistinct, Encodable, OnDisk, MarkerLayout;
    var p := ShardPath(hash, key);
    var files', st' := files - {p}, WithoutShard(st, key);
    forall k | k in st'.shards
      ensures HoldsShard(hash, ids, files', k, st'.shards[k])
    {
      assert HoldsShard(hash, ids, files, k, st.shards[k]);
      if ShardPath(hash, k) == p {
        ShardPathsDiffer(hash, ids, k, key);
      }
    }
    forall id | id in st'.markers
      ensures HoldsMarker(hash, ids, files', id, st'.markers[id])
    {
      assert HoldsMarker(hash, ids, files, id, st.markers[id]);
      ShardPathIsNoMarkerPath(hash, key, id);
    }
    forall q | q in files'
      ensures Accounted(hash, st', q)
    {
      StillAccounted(hash, st, st', q);
    }
  }

  lemma OnDiskLayout(m: ObjectMeta)
    ensures MarkerLayout(OnDisk(m)) == MarkerLayout(m) && OnDisk(OnDisk(m)) == OnDisk(m)
  {
    hide LittleEndian;
  }

  lemma MarkerWritten(hash: Hash, ids: iset<ObjectID>, files: map<Path, seq<byte>>, st: StoreState, id: ObjectID, m: ObjectMeta)
    requires DirsDistinct(hash, ids) && Represents(hash, ids, files, st) && id in ids
    ensures Represents(hash, ids, files[MarkerPath(hash, id) := MarkerLayout(m)], WithMarker(st, id, OnDisk(m)))
  {
    OnDiskLayout(m);
    hide ShardPath, MarkerPath, ShardFile, DirsDistinct, Encodable, MarkerLayout, OnDisk;
    var p := MarkerPath(hash, id);
    var files', st' := files[p := MarkerLayout(m)], WithMarker(st, id, OnDisk(m));
    forall k | k in st'.shards
      ensures HoldsShard(hash, ids, files', k, st'.shards[k])
    {
      assert HoldsShard(hash, ids, files, k, st.shards[k]);
      ShardPathIsNoMarkerPath(hash, k, id);
    }
    forall i | i in st'.markers
      ensures HoldsMarker(hash, ids, files', i, st'.markers[i])
    {
      if i != id {
        assert HoldsMarker(hash, ids, files, i, st.markers[i]);
        if MarkerPath(hash, i) == p {
          MarkerPathsDiffer(hash, ids, i, id);
        }
      }
    }
    forall q | q in files'
      ensures Accounted(hash, st', q)
    {
      if q == p {
        assert id in st'.markers;
      } else {
        StillAccounted(hash, st, st', q);
      }
    }
  }

  lemma MarkerRemoved(hash: Hash, ids: iset<ObjectID>, files: map<Path, seq<byte>>, st: StoreState, id: ObjectID)
    requires DirsDistinct(hash, ids) && Represents(hash, ids, files, st) && id in ids
    ensures Represents(hash, ids, files - {MarkerPath(hash, id)}, WithoutMarker(st, id))
  {
    hide ShardPath, MarkerPath, ShardFile, DirsDistinct, Encodable, MarkerLayout, OnDisk;
    var p := MarkerPath(hash, id);
    var files', st' := files - {p}, WithoutMarker(st, id);
    forall k | k in st'.shards
      ensures HoldsShard(hash, ids, files', k, st'.shards[k])
    {
      assert HoldsShard(hash, ids, files, k, st.shards[k]);
      ShardPathIsNoMarkerPath(hash, k, id);
    }
    forall i | i in st'.markers
      ensures HoldsMarker(hash, ids, files', i, st'.markers[i])
    {
      assert HoldsMarker(hash, ids, files, i, st.markers[i]);
      if MarkerPath(hash, i) == p {
        MarkerPathsDiffer(hash, ids, i, id);
      }
    }
    forall q | q in files'
      ensures Accounted(hash, st', q)
    {
      StillAccounted(hash, st, st', q);
    }
  }

  /** A key of a known object has a file exactly when the state holds it, and the file is its encoding. */
  lemma ShardFileOf(hash: Hash, ids: iset<ObjectID>, files: map<Path, seq<byte>>, st: StoreState, key: ShardKey)
    requires DirsDistinct(hash, ids) && Represents(hash, ids, files, st) && key.objectID in ids
    ensures ShardPath(hash, key) in files <==> key in st.shards
    ensures key in st.shards ==>
      && HoldsShard(hash, ids, files, key, st.shards[key])
      && Parsed(files[ShardPath(hash, key)]) == Ok((st.shards[key].h, st.shards[key].data))
  {
    hide ShardPath, MarkerPath, Layout, DirsDistinct, Parsed;
    var p := ShardPath(hash, key);
    if key in st.shards {
      assert HoldsShard(hash, ids, files, key, st.shards[key]);
      DecodeEncoded(st.shards[key].h, st.shards[key].data);
    } else if p in files {
      assert Accounted(hash, st, p);
      forall id | id in st.markers
        ensures p != MarkerPath(hash, id)
      {
        ShardPathIsNoMarkerPath(hash, key, id);
      }
      var k :| k in st.shards && p == ShardPath(hash, k);
      assert HoldsShard(hash, ids, files, k, st.shards[k]);
      ShardPathsDiffer(hash, ids, k, key);
      assert false;
    }
  }

  lemma MarkerFileOf(hash: Hash, ids: iset<ObjectID>, files: map<Path, seq<byte>>, st: StoreState, id: ObjectID)
    requires DirsDistinct(hash, ids) && Represents(hash, ids, files, st) && id in ids
    ensures MarkerPath(hash, id) in files <==> id in st.markers
    ensures id in st.markers ==> HoldsMarker(hash, ids, files, id, st.markers[id])
  {
    hide ShardPath, MarkerPath, DirsDistinct, Encodable;
    var p := MarkerPath(hash, id);
    if id in st.markers {
      assert HoldsMarker(hash, ids, files, id, st.markers[id]);
    } else if p in files {
      assert Accounted(hash, st, p);
      forall k | k in st.shards
        ensures p != ShardPath(hash, k)
      {
        ShardPathIsNoMarkerPath(hash, k, id);
      }
      var i :| i in st.markers && p == MarkerPath(hash, i);
      assert HoldsMarker(hash, ids, files, i, st.markers[i]);
      MarkerPathsDiffer(hash, ids, i, id);
      assert false;
    }
  }

  // ----- The store

  class FileStore {
    const hash: Hash
    /** The object ids in use. */
    ghost const ids: iset<ObjectID>
    var files: map<Path, seq<byte>>

    ghost var State: StoreState

    ghost predicate Valid()
      reads this
    {
      DirsDistinct(hash, ids) && Represents(hash, ids, files, State) && WellFormed(State)
    }

    constructor (hash: Hash, ghost ids: iset<ObjectID>)
      requires DirsDistinct(hash, ids)
      ensures Valid() && this.hash == hash && this.ids == ids && State == EMPTY
    {
      this.hash, this.ids := hash, ids;
      files := map[];
      State := EMPTY;
    }

    method PutShard(ctx: Context, key: ShardKey, h: ShardHeader, data: Slice) returns (r: Result<()>)
      requires Valid() && data.Valid() && key.objectID in ids
      modifies this
      ensures Valid()
      ensures r == if ctx.Done() then Err(ContextDone)
                   else if Mismatch(key, h, data.Length()).Err? then Mismatch(key, h, data.Length())
                   else if !Encodable(h) then Err(BadHeader) else Ok(())
      ensures State == if r.Ok? then WithShard(hash, old(State), key, h, data.View()) else old(State)
      ensures r.Ok? ==>
        var p, n := ShardPath(hash, key), 72 + |h.objectID|;
        && p in files && |files[p]| == n + data.Length()
        && ShardHeaderBytes(files[p][..n], h.(checksum := hash(data.View()))) && files[p][n..] == data.View()
    {
      hide ShardPath, Represents, DirsDistinct, Layout, ShardHeaderBytes;
      if ctx.Done() {
        return Err(ContextDone);
      }
      if key.objectID != h.objectID {
        return Err(KeyHeaderMismatch);
      }
      if data.Length() != h.dataLen {
        return Err(PayloadLength);
      }
      var payload := data.a[data.lo..data.hi];
      var h' := h.(checksum := hash(payload));
      var path := ShardPath(hash, key);
      var header := EncodeShardHeader(h');
      if header.Err? {
        return Err(BadHeader);
      }
      ShardWritten(hash, ids, files, State, key, StoredShard(h', payload));
      files := files[path := header.value + payload];
      assert files[path][..72 + |h.objectID|] == header.value && files[path][72 + |h.objectID|..] == payload;
      State := WithShard(hash, State, key, h, payload);
      return Ok(());
    }

    method GetShard(key: ShardKey) returns (r: Result<StoredShard>)
      requires Valid() && key.objectID in ids
      ensures r == Lookup(hash, State, key)
      ensures match r
        case Ok(s) => key in State.shards && s == State.shards[key] && hash(s.data) == s.h.checksum
        case Err(CorruptShard(h)) =>
          key in State.shards && h == State.shards[key].h && hash(State.shards[key].data) != h.checksum
        case Err(e) => e == ShardNotFound && key !in State.shards
    {
      hide ShardPath, Represents, DirsDistinct, Layout, Parsed;
      ShardFileOf(hash, ids, files, State, key);
      var path := ShardPath(hash, key);
      if path !in files {
        return Err(ShardNotFound);
      }
      var fh := new ByteReader(files[path]);
      var h := DecodeShardHeader(fh);
      if h.Err? {
        return Err(BadHeader);
      }
      assert fh.Rest()[..|fh.Rest()|] == fh.Rest();
      var data := fh.ReadLimited(h.value.dataLen);
      if |data| != h.value.dataLen {
        return Err(PayloadLength);
      }
      if hash(data) != h.value.checksum {
        return Err(CorruptShard(h.value));
      }
      return Ok(StoredShard(h.value, data));
    }

    method VerifyShard(key: ShardKey) returns (r: Result<ShardHeader>)
      requires Valid() && key.objectID in ids
      ensures r == HeaderOnly(Lookup(hash, State, key))
      ensures match r
        case Ok(h) => key in State.shards && h == State.shards[key].h && hash(State.shards[key].data) == h.checksum
        case Err(CorruptShard(h)) =>
          key in State.shards && h == State.shards[key].h && hash(State.shards[key].data) != h.checksum
        case Err(e) => e == ShardNotFound && key !in State.shards
    {
      hide ShardPath, Represents, DirsDistinct, Layout, Parsed;
      ShardFileOf(hash, ids, files, State, key);
      var path := ShardPath(hash, key);
      if path !in files {
        return Err(ShardNotFound);
      }
      var fh := new ByteReader(files[path]);
      var h := DecodeShardHeader(fh);
      if h.Err? {
        return Err(BadHeader);
      }
      assert fh.Rest()[..|fh.Rest()|] == fh.Rest();
      var data := fh.ReadLimited(h.value.dataLen);
      if hash(data) != h.value.checksum {
        return Err(CorruptShard(h.value));
      }
      return Ok(h.value);
    }

    method DeleteShard(key: ShardKey) returns (r: Result<()>)
      requires Valid() && key.objectID in ids
      modifies this
      ensures Valid()
      ensures r == if key in old(State).shards then Ok(()) else Err(ShardNotFound)
      ensures State == WithoutShard(old(State), key)
    {
      hide ShardPath, Represents, DirsDistinct;
      ShardFileOf(hash, ids, files, State, key);
      ShardRemoved(hash, ids, files, State, key);
      var path := ShardPath(hash, key);
      State := WithoutShard(State, key);
      if path !in files {
        assert files - {path} == files;
        return Err(ShardNotFound);
      }
      files := files - {path};
      return Ok(());
    }

    method ListShards() returns (r: Result<seq<ShardKey>>)
      requires Valid()
      ensures r.Ok? && IsListing(r.value, State.shards.Keys)
    {
      hide Represents, DirsDistinct;
      var found := Walk();
      if found.Err? {
        return found;
      }
      var keys := SortKeys(found.value);
      return Ok(keys);
    }

    /** Visits the files in any order, taking the indices from the name and the object id from the header. */
    method Walk() returns (r: Result<seq<ShardKey>>)
      requires Valid()
      ensures r.Ok? && Elements(r.value) == State.shards.Keys
      ensures forall i, j :: 0 <= i < j < |r.value| ==> r.value[i] != r.value[j]
    {
      hide ShardPath, Represents, DirsDistinct, IsShardFileName, ParsedFileName, Parsed;
      forall k | k in State.shards
        ensures ShardPath(hash, k) in files
      {
        KeyHasFile(k);
      }
      var rest := files.Keys;
      var found: seq<ShardKey> := [];
      while rest != {}
        invariant rest <= files.Keys
        invariant forall k :: k in found <==> k in State.shards && ShardPath(hash, k) !in rest
        invariant forall i, j :: 0 <= i < j < |found| ==> found[i] != found[j]
        decreases rest
      {
        var p :| p in rest;
        ghost var k := KeyAt(p);
        rest := rest - {p};
        if IsShardFileName(p.name) {
          var indices := ParsedFileName(p.name);
          if indices.Err? {
            return Err(BadFileName);
          }
          var id := ResolveObjectID(p);
          if id.Err? {
            return Err(BadHeader);
          }
          assert k !in found;
          found := found + [ShardKey(id.value, indices.value.0, indices.value.1)];
        }
      }
      return Ok(found);
    }

    lemma KeyHasFile(k: ShardKey)
      requires Valid() && k in State.shards
      ensures ShardPath(hash, k) in files && k.objectID in ids
    {
      assert HoldsShard(hash, ids, files, k, State.shards[k]);
    }

    /** The key that a file stands for, when it is a shard file. */
    lemma KeyAt(p: Path) returns (k: ShardKey)
      requires Valid() && p in files
      ensures IsShardFileName(p.name) ==>
        && k in State.shards && p == ShardPath(hash, k)
        && ParsedFileName(p.name) == Ok((k.stripeIdx, k.shardIdx))
        && Parsed(files[p]) == Ok((State.shards[k].h, State.shards[k].data))
        && State.shards[k].h.objectID == k.objectID
        && (forall k' :: k' in State.shards && ShardPath(hash, k') == p ==> k' == k)
      ensures !IsShardFileName(p.name) ==> forall k' :: k' in State.shards ==> ShardPath(hash, k') != p
    {
      hide DirsDistinct, ParsedFileName, IsShardFileName, Parsed, ShardFileName, ObjectDir;
      assert Accounted(hash, State, p);
      if IsShardFileName(p.name) {
        ShardNamesAreNotMarkers(0, 0);
        k :| k in State.shards && p == ShardPath(hash, k);
        ParseGenerated(k.stripeIdx, k.shardIdx);
        assert HoldsShard(hash, ids, files, k, State.shards[k]);
        ShardFileOf(hash, ids, files, State, k);
        forall k' | k' in State.shards && ShardPath(hash, k') == p
          ensures k' == k
        {
          assert HoldsShard(hash, ids, files, k', State.shards[k']);
          ShardPathsDiffer(hash, ids, k, k');
        }
      } else {
        k := ShardKey([], 0, 0);
        forall k' | k' in State.shards
          ensures ShardPath(hash, k') != p
        {
          ShardNamesAreNotMarkers(k'.stripeIdx, k'.shardIdx);
        }
      }
    }

    /** Reads just the header of a shard file. */
    method ResolveObjectID(p: Path) returns (r: Result<ObjectID>)
      requires p in files
      ensures match Parsed(files[p])
        case Ok((h, _)) => r == Ok(h.objectID)
        case Err(e) => r == Err(e)
    {
      var fh := new ByteReader(files[p]);
      var h := DecodeShardHeader(fh);
      if h.Err? {
        return Err(BadHeader);
      }
      return Ok(h.value.objectID);
    }

    method ListObjectShards(id: ObjectID) returns (r: Result<seq<ShardKey>>)
      requires Valid()
      ensures r.Ok? && IsListing(r.value, KeysOf(State.shards.Keys, id))
    {
      var all := ListShards();
      if all.Err? {
        return all;
      }
      var keys := FilterKeys(all.value, id, State.shards.Keys);
      return Ok(keys);
    }

    method WriteMarker(id: ObjectID, m: ObjectMeta)
      requires Valid() && id in ids
      modifies this
      ensures Valid()
      ensures State == WithMarker(old(State), id, OnDisk(m))
      ensures MarkerPath(hash, id) in files && MarkerBytes(files[MarkerPath(hash, id)], m)
    {
      hide MarkerPath, Represents, DirsDistinct, MarkerLayout, OnDisk, MarkerBytes;
      var b := EncodeObjectMeta(m);
      MarkerWritten(hash, ids, files, State, id, m);
      files := files[MarkerPath(hash, id) := b];
      State := WithMarker(State, id, OnDisk(m));
    }

    method ReadMarker(id: ObjectID) returns (r: Result<ObjectMeta>)
      requires Valid() && id in ids
      ensures r == MarkerOf(State, id)
    {
      hide MarkerPath, Represents, DirsDistinct, MarkerLayout, OnDisk;
      MarkerFileOf(hash, ids, files, State, id);
      var path := MarkerPath(hash, id);
      if path !in files {
        return Err(ObjectNotFound);
      }
      ghost var m := State.markers[id];
      assert MarkerLayout(m) <= files[path];
      r := DecodeObjectMeta(files[path]);
    }

    method RemoveMarker(id: ObjectID)
      requires Valid() && id in ids
      modifies this
      ensures Valid()
      ensures State == WithoutMarker(old(State), id)
    {
      hide MarkerPath, Represents, DirsDistinct;
      MarkerRemoved(hash, ids, files, State, id);
      files := files - {MarkerPath(hash, id)};
      State := WithoutMarker(State, id);
    }

    /** The environment's fault: payload bytes of a file change, its length and header do not. */
    method Rot(key: ShardKey, payload: seq<byte>)
      requires Valid() && key.objectID in ids
      modifies this
      ensures Valid()
      ensures State == WithPayload(old(State), key, payload)
    {
      hide ShardPath, Represents, DirsDistinct, Layout, Parsed;
      ShardFileOf(hash, ids, files, State, key);
      var path := ShardPath(hash, key);
      if path !in files {
        return;
      }
      var file := files[path];
      var fh := new ByteReader(file);
      var h := DecodeShardHeader(fh);
      if h.Err? || |payload| != h.value.dataLen {
        return;
      }
      ShardWritten(hash, ids, files, State, key, State.shards[key].(data := payload));
      assert file[..|file| - |payload|] == Layout(h.value);
      files := files[path := file[..|file| - |payload|] + payload];
      State := WithPayload(State, key, payload);
    }
  }
}
