/** Whole objects over a shard store: put, open, read, delete. */
module ObjectStores {
  import opened Bytes
  import opened Types
  import opened ReedSolomon
  import opened ErasureCoding
  import opened Listing
  import opened StoreModel
  import opened MemStores
  import opened FileStores
  import opened ShardStores
  import opened ObjectModel
  import opened Placement

  const DEFAULT_STRIPE_SIZE := 8 * 1024 * 1024

  /** The input of a put. */
  class InputReader {
    var rest: seq<byte>

    constructor (data: seq<byte>)
      ensures rest == data
    {
      rest := data;
    }

    /** Fills the first n bytes of buf, or reports a short input. */
    method ReadFull(buf: array<byte>, n: nat) returns (ok: bool)
      requires n <= buf.Length
      modifies this, buf
      ensures ok <==> n <= |old(rest)|
      ensures ok ==> buf[..n] == old(rest)[..n] && rest == old(rest)[n..]
      ensures !ok ==> rest == []
    {
      var m := if n <= |rest| then n else |rest|;
      forall i | 0 <= i < m {
        buf[i] := rest[i];
      }
      ok := n <= |rest|;
      assert buf[..m] == rest[..m];
      rest := rest[m..];
    }
  }

  class ObjectStore {
    const store: ShardStore
    const params: Params
    const stripeSize: i64

    constructor (store: ShardStore, params: Params, stripeSize: i64)
      ensures this.store == store && this.params == params
      ensures this.stripeSize == if stripeSize <= 0 then 8388608 else stripeSize
    {
      this.store, this.params := store, params;
      this.stripeSize := if stripeSize <= 0 then DEFAULT_STRIPE_SIZE else stripeSize;
    }

    ghost function Cfg(): Config { Config(store.Hash(), params, stripeSize) }

    /** At which shard of a put the shard store turns the caller away, if at any. */
    function StopOf(ctx: Context, id: ObjectID): Stop {
      if store.Mem? || (ctx.Live? && |id| <= 65535) then Never
      else if |id| <= 65535 then TurnedAway(ctx.checks, ContextDone)
      else TurnedAway(0, if ctx.Done() then ContextDone else BadHeader)
    }

    /** How many shards of one stripe get stored. */
    function Reached(ctx: Context, id: ObjectID): (n: nat)
      requires params.Valid()
      ensures n <= params.ShardCount()
    {
      var stop := StopOf(ctx, id);
      if stop.TurnedAway? && stop.shards < params.ShardCount() then stop.shards else params.ShardCount()
    }

    /** Whether a put of n input bytes is turned away at one of the shards it gets to. */
    ghost predicate Stopped(ctx: Context, id: ObjectID, n: nat, size: nat)
      requires params.Valid() && stripeSize > 0
    {
      var stop := StopOf(ctx, id);
      stop.TurnedAway? && stop.shards < Offset(Available(n, size, stripeSize), params.ShardCount())
    }

    /** Cuts the input in stripes through one reused buffer, stores each, and writes the marker last. */
    method PutObject(ctx: Context, id: ObjectID, r: InputReader, size: i64) returns (res: Result<()>)
      requires store.Valid() && store.Admits(id) && r !in store.Repr() && stripeSize > 0
      modifies store.Repr(), r
      ensures store.Valid() && fresh(store.Repr() - old(store.Repr()))
      ensures id == [] ==> res == Err(EmptyObjectID)
      ensures id != [] && size < 0 ==> res == Err(NegativeSize)
      ensures id != [] && size >= 0 && !params.Valid() ==> res == Err(InvalidParams)
      ensures id == [] || size < 0 || !params.Valid() ==> store.State() == old(store.State()) && r.rest == old(r.rest)
      ensures id != [] && size >= 0 && params.Valid() ==>
        var input := old(r.rest);
        if Stopped(ctx, id, |input|, size) then
          && res == Err(StopOf(ctx, id).error)
          && store.State() == PutPart(Cfg(), old(store.State()), id, Carried(input, size), StopOf(ctx, id).shards)
        else if |input| < size then
          && res == Err(ShortInput)
          && store.State() == PutStripes(Cfg(), old(store.State()), id, input, FullCount(|input|, stripeSize))
        else
          && res == Ok(())
          && r.rest == input[size..]
          && store.State() == PutAll(Cfg(), old(store.State()), id, input[..size])
          && (Fits(Cfg(), input[..size]) ==> AllDescribed(Cfg(), store.State(), id, size))
    {
      hide PutStripes, PutPart, StripeCount, Stopped, FullCount, WithMarker, StopOf, MemStore.Valid, FileStore.Valid,
           ShardStore.Kept, AllDescribed, Fits;
      if id == [] {
        return Err(EmptyObjectID);
      }
      if size < 0 {
        return Err(NegativeSize);
      }
      var enc := EncoderFor(params);
      if enc.Err? {
        return Err(InvalidParams);
      }
      var stripes := StoreStripes(ctx, enc.value, id, r, size);
      if stripes.Err? {
        return Err(stripes.error);
      }
      var m := ObjectMeta(size, stripes.value, params);
      KeptAsIs(m);
      store.WriteMarker(id, m);
      if Fits(Cfg(), old(r.rest)[..size]) {
        PutIsAllDescribed(Cfg(), old(store.State()), id, old(r.rest)[..size]);
      }
      return Ok(());
    }

    /** The loop of a put: stripe after stripe through the buffer; answers the stripe counter. */
    method StoreStripes(ctx: Context, enc: Encoder, id: ObjectID, r: InputReader, size: i64) returns (res: Result<u32>)
      requires store.Valid() && store.Admits(id) && r !in store.Repr()
      requires id != [] && size >= 0 && Cfg().Valid() && enc.parm == params
      modifies store.Repr(), r
      ensures store.Valid() && fresh(store.Repr() - old(store.Repr()))
      ensures res.Ok? ==>
        && !Stopped(ctx, id, |old(r.rest)|, size) && size <= |old(r.rest)|
        && res.value == StripeCount(size, stripeSize) % MAX_U32 && r.rest == old(r.rest)[size..]
        && store.State() == PutStripes(Cfg(), old(store.State()), id, old(r.rest)[..size], StripeCount(size, stripeSize))
      ensures res.Err? && Stopped(ctx, id, |old(r.rest)|, size) ==>
        && res.error == StopOf(ctx, id).error
        && store.State() == PutPart(Cfg(), old(store.State()), id, Carried(old(r.rest), size), StopOf(ctx, id).shards)
      ensures res.Err? && !Stopped(ctx, id, |old(r.rest)|, size) ==>
        && |old(r.rest)| < size && res.error == ShortInput
        && store.State() ==
           PutStripes(Cfg(), old(store.State()), id, old(r.rest), FullCount(|old(r.rest)|, stripeSize))
    {
      hide PutStripes, PutPart, StripeCount, FullCount, Offset, Available, StopOf, Reached, Carried, Stopped, NotYet, PutShards,
           Cut, MemStore.Valid, FileStore.Valid, Context.Checked;
      ghost var c, st0, input := Cfg(), store.State(), r.rest;
      assert Carried(input, size) == if size <= |input| then input[..size] else input by { WhatIsCarried(input, size); }
      var buf := new byte[stripeSize];
      var stripeIdx: u32 := 0;
      var remaining := size;
      var left := ctx;
      ghost var t: nat := 0;
      PutNothing(c, st0, id, Carried(input, size));
      OffsetZero(stripeSize);
      CountBounds(size, stripeSize);
      AtFirst(ctx, id);
      while remaining > 0
        invariant store.Valid() && fresh(store.Repr() - old(store.Repr()))
        invariant buf !in store.Repr() && r !in store.Repr()
        invariant stripeIdx == t % MAX_U32
        invariant 0 <= remaining <= size && size - remaining <= |input| && r.rest == input[size - remaining..]
        invariant remaining > 0 ==> size - remaining == Offset(t, stripeSize)
        invariant remaining == 0 ==> t == StripeCount(size, stripeSize)
        invariant store.State() == PutStripes(c, st0, id, Carried(input, size), t)
        invariant left == ctx.Checked(Offset(t, params.ShardCount())) && NotYet(ctx, id, t)
      {
        var n := if remaining < stripeSize then remaining else stripeSize;
        AfterStripe(t, size, stripeSize);
        AvailableAt(|input|, size, stripeSize, t);
        var put := StoreNext(left, enc, id, r, buf, stripeIdx, n, st0, input, size, t);
        NextStop(ctx, id, t);
        if put.Err? {
          StoppedAt(ctx, id, |input|, size, t);
          ghost var j := Reached(left, id);
          PutPartIs(c, st0, id, Carried(input, size), t, if j < params.ShardCount() then j else 0);
          return Err(put.error);
        }
        WrapNext(t);
        stripeIdx := (stripeIdx + 1) % MAX_U32;
        remaining := remaining - n;
        left := left.Checked(params.ShardCount());
        t := t + 1;
      }
      AvailableAll(|input|, size, stripeSize);
      StoppedAt(ctx, id, |input|, size, t);
      return Ok(stripeIdx);
    }

    /** No shard of the first t stripes is turned away. */
    ghost predicate NotYet(ctx: Context, id: ObjectID, t: nat)
      requires params.Valid()
    {
      StopOf(ctx, id).TurnedAway? ==> Offset(t, params.ShardCount()) <= StopOf(ctx, id).shards
    }

    lemma AtFirst(ctx: Context, id: ObjectID)
      requires params.Valid()
      ensures ctx.Checked(Offset(0, params.ShardCount())) == ctx && NotYet(ctx, id, 0)
    {
    }

    /** After t stripes the stop is so many shards nearer. */
    lemma NextStop(ctx: Context, id: ObjectID, t: nat)
      requires params.Valid() && NotYet(ctx, id, t)
      ensures var total, stop := params.ShardCount(), StopOf(ctx, id);
        var left := ctx.Checked(Offset(t, total));
        && left.Checked(total) == ctx.Checked(Offset(t + 1, total))
        && if Reached(left, id) < total
           then
             && !NotYet(ctx, id, t + 1) && stop.TurnedAway? && stop.shards == Offset(t, total) + Reached(left, id)
             && StopOf(left, id) == TurnedAway(Reached(left, id), stop.error)
           else NotYet(ctx, id, t + 1)
    {
      hide Offset;
      OffsetShift(t, params.ShardCount());
      OffsetMonotone(0, t, params.ShardCount());
      if t > 0 {
        OffsetIsProduct(t, params.ShardCount());
      } else {
        OffsetZero(params.ShardCount());
      }
    }

    /** Whether a put is stopped, by how many stripes the input has. */
    lemma StoppedAt(ctx: Context, id: ObjectID, n: nat, size: nat, t: nat)
      requires params.Valid() && stripeSize > 0 && NotYet(ctx, id, t)
      ensures Available(n, size, stripeSize) == t ==> !Stopped(ctx, id, n, size)
      ensures Available(n, size, stripeSize) > t && !NotYet(ctx, id, t + 1) ==> Stopped(ctx, id, n, size)
    {
      hide Offset, Available;
      if Available(n, size, stripeSize) > t {
        OffsetMonotone(t + 1, Available(n, size, stripeSize), params.ShardCount());
      }
    }

    lemma WhatIsCarried(input: seq<byte>, n: nat)
      ensures Carried(input, n) == if n <= |input| then input[..n] else input
    {
    }

    /** Reads n bytes into the buffer and stores them as stripe t. */
    method StoreNext(
      ctx: Context, enc: Encoder, id: ObjectID, r: InputReader, buf: array<byte>, stripeIdx: u32, n: nat,
      ghost st0: StoreState, ghost input: seq<byte>, ghost size: nat, ghost t: nat)
      returns (res: Result<()>)
      requires store.Valid() && store.Admits(id) && r !in store.Repr() && buf !in store.Repr()
      requires id != [] && Cfg().Valid() && enc.parm == params && buf.Length == stripeSize
      requires stripeIdx == t % MAX_U32 && Offset(t, stripeSize) < size && Offset(t, stripeSize) <= |input|
      requires n == Min(stripeSize, size - Offset(t, stripeSize)) && r.rest == input[Offset(t, stripeSize)..]
      requires store.State() == PutStripes(Cfg(), st0, id, Carried(input, size), t)
      modifies store.Repr(), r, buf
      ensures store.Valid() && fresh(store.Repr() - old(store.Repr()))
      ensures r !in store.Repr() && buf !in store.Repr()
      ensures |old(r.rest)| < n ==> res == Err(ShortInput) && store.State() == old(store.State())
      ensures |old(r.rest)| >= n ==>
        && r.rest == old(r.rest)[n..]
        && var j := Reached(ctx, id);
        if j < params.ShardCount() then
          && res == Err(StopOf(ctx, id).error)
          && store.State() ==
             PutShards(Cfg(), old(store.State()), id, stripeIdx, Cut(Carried(input, size), stripeSize, t), j)
        else
          res == Ok(()) && store.State() == PutStripes(Cfg(), st0, id, Carried(input, size), t + 1)
    {
      hide PutShards, PutStripes, StopOf, Reached, Carried, Offset, Cut, MemStore.Valid, FileStore.Valid;
      var ok := r.ReadFull(buf, n);
      if !ok {
        return Err(ShortInput);
      }
      CutOfInput(input, size, stripeSize, t);
      assert buf[0..n] == buf[..n];
      res := PutStripe(ctx, enc, id, stripeIdx, Slice(buf, 0, n));
      PutOneMore(Cfg(), st0, id, Carried(input, size), t);
    }

    lemma KeptAsIs(m: ObjectMeta)
      requires m.params.Valid()
      ensures store.Kept(m) == m
    {
    }

    /** The headers that a put writes are turned down only for the context or the length of the id. */
    lemma AdmissionIs(ctx: Context, id: ObjectID, i: u32, j: u32, stripeLen: i64, n: i64)
      requires id != [] && params.Valid() && n >= 0 && j < params.ShardCount() && j <= Reached(ctx, id)
      ensures store.Admission(ctx.Checked(j), ShardKey(id, i, j), HeaderFor(params, id, i, j, stripeLen, n), n)
        == if j == Reached(ctx, id) then Err(StopOf(ctx, id).error) else Ok(())
    {
    }

    /** Encodes one stripe and stores its shards one by one, up to the one that is turned away. */
    method PutStripe(ctx: Context, enc: Encoder, id: ObjectID, stripeIdx: u32, stripe: Slice) returns (res: Result<()>)
      requires store.Valid() && store.Admits(id) && id != [] && Cfg().Valid() && enc.parm == params
      requires stripe.Valid() && stripe.a !in store.Repr() && stripe.Length() <= stripeSize
      modifies store.Repr(), stripe.a
      ensures store.Valid() && fresh(store.Repr() - old(store.Repr())) && stripe.a !in store.Repr()
      ensures stripe.a[..stripe.hi] == old(stripe.a[..stripe.hi])
      ensures res == if Reached(ctx, id) < params.ShardCount() then Err(StopOf(ctx, id).error) else Ok(())
      ensures store.State() == PutShards(Cfg(), old(store.State()), id, stripeIdx, old(stripe.View()), Reached(ctx, id))
      ensures forall j: u32 :: j < Reached(ctx, id) ==>
        var k := ShardKey(id, stripeIdx, j);
        k in store.State().shards && Describes(params, store.Hash(), k, stripe.Length(), store.State().shards[k])
    {
      hide ShardStore.Valid, ShardStore.Admission, Shard, SplitSize, PutShards, WithShard, IsWindow, StopOf, Reached,
           Context.Checked, Describes;
      ghost var c, st0, bytes := Cfg(), store.State(), stripe.View();
      PutNoShard(c, st0, id, stripeIdx, bytes);
      PutShardsDescribed(c, st0, id, stripeIdx, bytes, Reached(ctx, id));
      var shards := enc.Encode(stripe);
      for j := 0 to |shards|
        invariant store.Valid() && fresh(store.Repr() - old(store.Repr())) && stripe.a !in store.Repr()
        invariant stripe.a[..stripe.hi] == old(stripe.a[..stripe.hi])
        invariant forall i :: 0 <= i < |shards| ==> shards[i].Valid() && shards[i].a !in store.Repr()
        invariant forall i :: 0 <= i < |shards| ==> shards[i].View() == Shard(bytes, params.dataShards, i)
        invariant store.State() == PutShards(c, st0, id, stripeIdx, bytes, j)
        invariant j <= Reached(ctx, id)
      {
        PutOneShard(c, st0, id, stripeIdx, bytes, j);
        var s := shards[j];
        var h := ShardHeader(id, stripeIdx, j, params.dataShards, params.parityShards, stripe.Length(), s.Length(), Unstamped());
        AdmissionIs(ctx, id, stripeIdx, j, stripe.Length(), s.Length());
        var put := store.PutShard(ctx.Checked(j), ShardKey(id, stripeIdx, j), h, s);
        if put.Err? {
          return put;
        }
      }
      return Ok(());
    }

    /** Opens an object: the highest listed stripe and the length of that stripe give the size. */
    method GetObject(id: ObjectID) returns (res: Result<Body>)
      requires store.Valid() && store.Admits(id)
      requires Openable(Cfg(), store.State(), id)
      ensures match Open(Cfg(), store.State(), id)
        case Err(e) => res == Err(e)
        case Ok(Empty(size)) => res == Ok(EmptyBody(size))
        case Ok(Stream(total, size)) =>
          && res.Ok? && res.value.Streaming? && res.value.size == size
          && var rd := res.value.reader; fresh(rd) && fresh(rd.buf) && rd.Opens(this, id, total)
    {
      hide MemStore.Valid, FileStore.Valid, FirstLength, Wrap64, KeysOf, KeyLess, MaxStripe, IsMaxStripe;
      var listed := store.ListObjectShards(id);
      var keys := listed.value;
      ghost var all := KeysOf(store.State().shards.Keys, id);
      if |keys| == 0 {
        assert all == {};
        var meta := store.ReadMarker(id);
        match meta
        case Ok(m) => return Ok(EmptyBody(m.size));
        case Err(e) => return Err(e);
      }
      var maxStripe := HighestStripe(keys);
      MaxOfListing(keys, all, maxStripe);
      res := OpenStripes(id, maxStripe);
    }

    /** A reader for stripes 0 to maxStripe, and the size they make up. */
    method OpenStripes(id: ObjectID, maxStripe: u32) returns (res: Result<Body>)
      requires store.Valid() && store.Admits(id)
      requires params.Valid() || FirstLength(Cfg(), store.State(), id, maxStripe, 0).Err?
      ensures match FirstLength(Cfg(), store.State(), id, maxStripe, 0)
        case Err(e) => res == Err(e)
        case Ok(length) =>
          && res.Ok? && res.value.Streaming?
          && res.value.size == Wrap64(Wrap64(maxStripe * stripeSize) + length)
          && var rd := res.value.reader;
          fresh(rd) && fresh(rd.buf) && rd.Opens(this, id, (maxStripe + 1) % MAX_U32)
    {
      hide MemStore.Valid, FileStore.Valid, FirstLength, Wrap64;
      var stripes: u32 := (maxStripe + 1) % MAX_U32;
      var full := (stripes - 1) % MAX_U32;
      assert full == maxStripe;
      var size := Wrap64(full * stripeSize);
      var lastLen := LastStripeLen(id, maxStripe);
      match lastLen
      case Err(e) => return Err(e);
      case Ok(length) =>
        size := Wrap64(size + length);
        var rd := new ObjectReader(store, id, params, stripeSize, stripes);
        return Ok(Streaming(rd, size));
    }

    /** The stripe length in the first valid header of a stripe. */
    method LastStripeLen(id: ObjectID, stripeIdx: u32) returns (res: Result<i64>)
      requires store.Valid() && store.Admits(id)
      ensures res == FirstLength(Cfg(), store.State(), id, stripeIdx, 0)
    {
      hide MemStore.Valid, FileStore.Valid, Lookup;
      var j := 0;
      while j < params.ShardCount()
        invariant j >= 0
        invariant FirstLength(Cfg(), store.State(), id, stripeIdx, 0) == FirstLength(Cfg(), store.State(), id, stripeIdx, j)
      {
        var key := ShardKey(id, stripeIdx, j % MAX_U32);
        var h := store.VerifyShard(key);
        LookupErrors(Cfg().hash, store.State(), key);
        match h {
          case Ok(header) => return Ok(header.stripeLen);
          case Err(CorruptShard(_)) =>
          case Err(ShardNotFound) =>
          case Err(e) => return Err(e);
        }
        j := j + 1;
      }
      return Err(Unrecoverable);
    }

    /** The keys stored for an object that has shards or a marker. */
    method ObjectShards(id: ObjectID) returns (res: Result<seq<ShardKey>>)
      requires store.Valid() && store.Admits(id)
      ensures var keys := KeysOf(store.State().shards.Keys, id);
        if keys == {} && id !in store.State().markers then res == Err(ObjectNotFound)
        else res.Ok? && IsListing(res.value, keys)
    {
      hide MemStore.Valid, FileStore.Valid;
      var listed := store.ListObjectShards(id);
      if |listed.value| == 0 {
        assert KeysOf(store.State().shards.Keys, id) == {};
        var meta := store.ReadMarker(id);
        if meta.Err? {
          return Err(meta.error);
        }
      } else {
        assert listed.value[0] in listed.value;
      }
      return listed;
    }

    /** Removes every listed shard, then the marker; it never meets a missing shard. */
    method DeleteObject(id: ObjectID) returns (res: Result<()>)
      requires store.Valid() && store.Admits(id)
      modifies store.Repr()
      ensures store.Valid() && store.Repr() == old(store.Repr())
      ensures res == Ok(()) && store.State() == DeleteAll(old(store.State()), id)
    {
      hide MemStore.Valid, FileStore.Valid, KeyLess;
      var listed := store.ListObjectShards(id);
      var keys := listed.value;
      ghost var st0 := store.State();
      for i := 0 to |keys|
        invariant store.Valid() && store.Repr() == old(store.Repr())
        invariant store.State() == Without(st0, keys[..i])
      {
        assert keys[i] in keys;
        ListedOnce(keys, KeysOf(st0.shards.Keys, id), i);
        store.KeysAdmitted();
        var deleted := store.DeleteShard(keys[i]);
        match deleted {
          case Ok(_) =>
          case Err(e) => return Err(e);
        }
        assert keys[..i + 1] == keys[..i] + [keys[i]];
        WithoutOneMore(st0, keys[..i], keys[i]);
      }
      assert keys[..|keys|] == keys;
      store.RemoveMarker(id);
      assert store.State().shards == DeleteAll(st0, id).shards;
      return Ok(());
    }
  }

  /** The highest stripe index among some keys, or 0. */
  method HighestStripe(keys: seq<ShardKey>) returns (mx: u32)
    ensures forall j :: 0 <= j < |keys| ==> keys[j].stripeIdx <= mx
    ensures mx > 0 ==> exists j :: 0 <= j < |keys| && keys[j].stripeIdx == mx
  {
    mx := 0;
    for i := 0 to |keys|
      invariant forall j :: 0 <= j < i ==> keys[j].stripeIdx <= mx
      invariant mx > 0 ==> exists j :: 0 <= j < i && keys[j].stripeIdx == mx
    {
      if keys[i].stripeIdx > mx {
        mx := keys[i].stripeIdx;
      }
    }
  }

  /** A put gets all shards stored, or so many before one is turned away. */
  datatype Stop = Never | TurnedAway(shards: nat, error: Error)

  datatype Body = EmptyBody(size: i64) | Streaming(reader: ObjectReader, size: i64)

  lemma LookupErrors(hash: Hash, st: StoreState, key: ShardKey)
    ensures match Lookup(hash, st, key)
      case Ok(_) => true
      case Err(e) => e.CorruptShard? || e.ShardNotFound?
  {
  }

  lemma MaxOfListing(keys: seq<ShardKey>, all: set<ShardKey>, mx: u32)
    requires IsListing(keys, all) && |keys| > 0
    requires forall j :: 0 <= j < |keys| ==> keys[j].stripeIdx <= mx
    requires mx > 0 ==> exists j :: 0 <= j < |keys| && keys[j].stripeIdx == mx
    ensures all != {} && MaxStripe(all) == mx
  {
    hide KeyLess;
    assert keys[0] in keys;
    var k :| k in all && k.stripeIdx == MaxStripe(all);
    assert k in keys;
    if mx > 0 {
      var j :| 0 <= j < |keys| && keys[j].stripeIdx == mx;
      assert keys[j] in keys;
    }
  }

  /** A key of a listing occurs once in it. */
  lemma ListedOnce(keys: seq<ShardKey>, s: set<ShardKey>, i: nat)
    requires IsListing(keys, s) && i < |keys|
    ensures keys[i] !in keys[..i]
  {
    hide KeyLess;
    KeyLessConnected(keys[i], keys[i]);
  }

  ghost function Without(st: StoreState, keys: seq<ShardKey>): StoreState {
    st.(shards := map k | k in st.shards && k !in keys :: st.shards[k])
  }

  lemma WithoutOneMore(st: StoreState, keys: seq<ShardKey>, k: ShardKey)
    ensures WithoutShard(Without(st, keys), k) == Without(st, keys + [k])
  {
  }

  // ----- Reading

  class ObjectReader {
    const store: ShardStore
    const enc: Encoder
    const id: ObjectID
    const params: Params
    const stripeSize: i64
    const totalStripes: u32

    var stripeIdx: u32
    var buf: array<byte>
    var off: nat

    constructor (store: ShardStore, id: ObjectID, params: Params, stripeSize: i64, totalStripes: u32)
      ensures this.store == store && this.id == id && this.params == params && enc == Encoder(params)
      ensures this.stripeSize == stripeSize && this.totalStripes == totalStripes
      ensures At() == START && buf.Length == 0 && fresh(buf)
    {
      this.store, this.id, this.params, this.stripeSize, this.totalStripes := store, id, params, stripeSize, totalStripes;
      enc := Encoder(params);
      stripeIdx, off := 0, 0;
      buf := new byte[0];
    }

    /** A reader just opened by the given store. */
    ghost predicate Opens(o: ObjectStore, id: ObjectID, total: u32)
      reads this, buf
    {
      && store == o.store && this.id == id && params == o.params && stripeSize == o.stripeSize && totalStripes == total
      && enc == Encoder(params) && At() == START
    }

    ghost function Cfg(): Config { Config(store.Hash(), params, stripeSize) }

    ghost function At(): Cursor
      reads this, buf
    {
      Cursor(stripeIdx, buf[..], off)
    }

    /** The buffer holds what was loaded of the current stripe, whatever the store holds of it by now. */
    ghost predicate Valid()
      reads this, buf, if store.Mem? then {store.mem as object} else {store.disk}
      reads store.Repr()
    {
      && store.Valid() && store.Admits(id) && Cfg().Valid() && enc == Encoder(params)
      && this !in store.Repr() && buf !in store.Repr()
      && At().Valid()
    }

    /** The stripe that the next call has to load, if it has to load one, does not make the code panic. */
    ghost predicate Ready()
      requires Valid()
      reads this, buf, if store.Mem? then {store.mem as object} else {store.disk}
      reads store.Repr()
    {
      stripeIdx < totalStripes && buf.Length == 0 ==> Loadable(Cfg(), store.State(), id, stripeIdx)
    }

    /** Copies out of the current stripe, loading it first when the buffer is used up. */
    method Read(p: array<byte>) returns (n: nat, err: Status)
      requires Valid() && Ready() && p !in store.Repr() && p != buf
      modifies this, p, buf
      ensures Valid() && p != buf && (buf == old(buf) || fresh(buf))
      ensures var step := ReadStep(Cfg(), store.State(), id, totalStripes, old(At()), p.Length);
        && At() == step.next && err == step.status
        && n == |step.out| <= p.Length && p[..n] == step.out && p[n..] == old(p[n..])
    {
      hide MemStore.Valid, FileStore.Valid, StripeRead, Loadable, HandOut;
      if stripeIdx >= totalStripes {
        return 0, Eof;
      }
      if off == buf.Length {
        var loaded := LoadStripe();
        match loaded {
          case Err(e) => return 0, Failed(e);
          case Ok(_) =>
        }
        if buf.Length == 0 {
          stripeIdx := (stripeIdx + 1) % MAX_U32;
          assert buf[..] == [];
          return 0, Eof;
        }
      }
      n := CopyOut(p);
      err := More;
    }

    /** Copies what fits of the buffered stripe and steps past the stripe when it is used up. */
    method CopyOut(p: array<byte>) returns (n: nat)
      requires Valid() && buf.Length > 0 && p !in store.Repr() && p != buf
      modifies this, p
      ensures Valid() && p != buf && (buf == old(buf) || fresh(buf))
      ensures var step := HandOut(old(At()), p.Length);
        At() == step.next && n == |step.out| <= p.Length && p[..n] == step.out && p[n..] == old(p[n..])
    {
      hide MemStore.Valid, FileStore.Valid;
      n := if p.Length <= buf.Length - off then p.Length else buf.Length - off;
      ghost var s := buf[..];
      forall i | 0 <= i < n {
        p[i] := buf[off + i];
      }
      assert buf[..] == s && forall i :: 0 <= i < n ==> p[i] == s[off + i];
      assert p[..n] == s[off..off + n];
      off := off + n;
      if off == buf.Length {
        stripeIdx := (stripeIdx + 1) % MAX_U32;
        buf := new byte[0];
        off := 0;
        assert buf[..] == [];
      }
    }

    /** Gathers the shards of the current stripe, and reconstructs from the valid ones. */
    method LoadStripe() returns (res: Result<()>)
      requires Valid() && buf.Length == 0 && Loadable(Cfg(), store.State(), id, stripeIdx)
      modifies this
      ensures stripeIdx == old(stripeIdx) && off == 0
      ensures match StripeRead(Cfg(), store.State(), id, stripeIdx)
        case Ok(s) => res == Ok(()) && fresh(buf) && buf[..] == s
        case Err(e) => res == Err(e) && buf == old(buf)
    {
      hide MemStore.Valid, FileStore.Valid, ValidCount, LengthSeen, Gathered, Reconstructed, Joined;
      var shards, stripeLen, valid, lost := GatherShards();
      if valid < params.dataShards {
        return Err(Unrecoverable);
      }
      if lost > 0 {
        var done := enc.Reconstruct(shards);
        match done {
          case Ok(_) =>
          case Err(e) => return Err(e);
        }
      }
      var out := new byte[stripeLen];
      var joined := enc.Join(out, shards[..], stripeLen);
      match joined {
        case Ok(_) =>
        case Err(e) => return Err(e);
      }
      buf := out;
      off := 0;
      return Ok(());
    }

    /** Reads every shard of the current stripe and drops the missing and the corrupt. */
    method GatherShards() returns (shards: array<seq<byte>>, stripeLen: i64, valid: nat, lost: nat)
      requires Valid()
      ensures fresh(shards) && shards.Length == params.ShardCount()
      ensures var c, st, total := Cfg(), store.State(), params.ShardCount();
        && shards[..] == Gathered(c, st, id, stripeIdx, total)
        && valid == ValidCount(c, st, id, stripeIdx, total) && lost == total - valid
        && stripeLen == LengthSeen(c, st, id, stripeIdx, total)
    {
      hide MemStore.Valid, FileStore.Valid, Lookup, StripeRead, Gathered, ValidCount, LengthSeen;
      ghost var c, st := Cfg(), store.State();
      NoneGathered(c, st, id, stripeIdx);
      var total := params.ShardCount();
      shards := new seq<byte>[total](_ => []);
      stripeLen, valid, lost := 0, 0, 0;
      for i := 0 to total
        invariant forall j :: 0 <= j < i ==> shards[j] == Gathered(c, st, id, stripeIdx, total)[j]
        invariant forall j :: i <= j < total ==> shards[j] == []
        invariant valid == ValidCount(c, st, id, stripeIdx, i) && lost == i - valid
        invariant stripeLen == LengthSeen(c, st, id, stripeIdx, i)
      {
        var key := ShardKey(id, stripeIdx, i);
        LookupErrors(c.hash, st, key);
        OneMoreGathered(c, st, id, stripeIdx, i, total);
        var r := store.GetShard(key);
        match r {
          case Ok(s) =>
            shards[i] := s.data;
            stripeLen := s.h.stripeLen;
            valid := valid + 1;
          case Err(CorruptShard(_)) =>
            lost := lost + 1;
          case Err(ShardNotFound) =>
            lost := lost + 1;
          case Err(_) =>
            assert false;
        }
      }
    }
  }
}
