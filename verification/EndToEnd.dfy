/** Clients of the object store: runs of operations, reading a body to its end, and reading while faults go on. */
module EndToEnd {
  import opened Bytes
  import opened Types
  import opened StoreModel
  import opened MemStores
  import opened FileStores
  import opened ObjectModel
  import opened ObjectStores
  import opened Placement
  import opened Recovery
  import opened Reading
  import opened Durability
  import opened Streaming
  import opened Overwriting
  import opened Runs

  // ----- Reading a body to its end

  /** Loading any stripe of the object does not make the code panic. */
  ghost predicate AllLoadable(c: Config, st: StoreState, id: ObjectID, total: u32)
    requires c.Valid()
  {
    forall i: u32 :: i < total ==> Loadable(c, st, id, i)
  }

  /** One call of Read, by what it takes off what is still to come. */
  method ReadSome(rd: ObjectReader, p: array<byte>) returns (chunk: seq<byte>, status: Status)
    requires rd.Valid() && rd.Ready() && p !in rd.store.Repr() && p != rd.buf && p.Length > 0
    requires Within(rd.Cfg(), rd.store.State(), rd.id, rd.totalStripes, rd.At())
    modifies rd, rd.buf, p
    ensures rd.Valid() && p != rd.buf && (rd.buf == old(rd.buf) || fresh(rd.buf))
    ensures var c, st, id, total := rd.Cfg(), rd.store.State(), rd.id, rd.totalStripes;
      var was := Remaining(c, st, id, total, old(rd.At()));
      match status
      case More =>
        var left := Remaining(c, st, id, total, rd.At());
        Within(c, st, id, total, rd.At()) && chunk != [] && was == left.(bytes := chunk + left.bytes)
      case Eof => was == Outcome.Done([])
      case Failed(e) => was == Broken([], e)
  {
    hide MemStore.Valid, FileStore.Valid, Remaining, Within, ReadStep, Loadable, Delivered;
    StepAdvances(rd.Cfg(), rd.store.State(), rd.id, rd.totalStripes, rd.At(), p.Length);
    var m, s := rd.Read(p);
    return p[..m], s;
  }

  /** What is out so far, and what is left, make up the whole. */
  ghost predicate MakesUp(out: seq<byte>, left: Outcome, whole: Outcome) {
    !left.NotOpened? && whole == left.(bytes := out + left.bytes)
  }

  lemma MakesUpStill(out: seq<byte>, chunk: seq<byte>, was: Outcome, left: Outcome, whole: Outcome)
    requires MakesUp(out, was, whole) && !left.NotOpened? && was == left.(bytes := chunk + left.bytes)
    ensures MakesUp(out + chunk, left, whole) && |was.bytes| == |chunk| + |left.bytes|
  {
    assert out + (chunk + left.bytes) == (out + chunk) + left.bytes;
  }

  /** Reads a body to its end through a buffer of n bytes, as a copy loop does. */
  method ReadToEnd(rd: ObjectReader, n: nat) returns (out: seq<byte>, end: Status)
    requires rd.Valid() && rd.At() == START && n > 0
    requires AllLoadable(rd.Cfg(), rd.store.State(), rd.id, rd.totalStripes)
    modifies rd, rd.buf
    ensures rd.Valid()
    ensures match Collect(rd.Cfg(), rd.store.State(), rd.id, 0, rd.totalStripes)
      case Done(bytes) => out == bytes && end == Eof
      case Broken(bytes, e) => out == bytes && end == Failed(e)
      case NotOpened(_) => false
  {
    hide MemStore.Valid, FileStore.Valid, Loadable, Collect, Remaining, Within;
    ghost var c, st, id, total := rd.Cfg(), rd.store.State(), rd.id, rd.totalStripes;
    ghost var whole := Collect(c, st, id, 0, total);
    FromTheStart(c, st, id, total);
    out, end := [], More;
    var p := new byte[n];
    ghost var left := whole;
    while end == More
      invariant rd.Valid() && p != rd.buf && p !in rd.store.Repr()
      invariant rd.buf == old(rd.buf) || fresh(rd.buf)
      invariant rd.store.State() == st
      invariant end == More ==> Within(c, st, id, total, rd.At()) && left == Remaining(c, st, id, total, rd.At())
      invariant MakesUp(out, left, whole)
      invariant end == Eof ==> left == Outcome.Done([])
      invariant end.Failed? ==> left == Broken([], end.error)
      decreases end == More, |left.bytes|
    {
      var chunk, status := ReadSome(rd, p);
      end := status;
      if status == More {
        ghost var was := left;
        left := Remaining(c, st, id, total, rd.At());
        MakesUpStill(out, chunk, was, left, whole);
        out := out + chunk;
      }
    }
  }

  lemma FromTheStart(c: Config, st: StoreState, id: ObjectID, total: u32)
    requires c.Valid()
    ensures Remaining(c, st, id, total, START) == Collect(c, st, id, 0, total)
    ensures Within(c, st, id, total, START)
  {
    RemainingFrom(c, st, id, total, 0);
  }

  // ----- Put and read

  /** Headers of an eroded object state the lengths of its stripes. */
  lemma ErodedIsLoadable(c: Config, d: Config, st: StoreState, id: ObjectID, data: seq<byte>, i: u32)
    requires Reads(d, c) && Fits(c, data) && Eroded(c, st, id, data)
    ensures Loadable(d, st, id, i)
  {
    hide Cut, StripeCount, Eroded, StripeEroded, Gathered, ValidCount, LengthSeen;
    ErodedStripe(c, st, id, data, i);
    if ValidCount(d, st, id, i, d.params.ShardCount()) > 0 {
      LengthSeenIs(c, d, st, id, i, Cut(data, c.stripeSize, i), d.params.ShardCount());
    }
  }

  /** So do those of a put, whatever the store held before. */
  lemma PutIsLoadable(c: Config, st: StoreState, id: ObjectID, data: seq<byte>, i: u32)
    requires Fits(c, data) && i < StripeCount(|data|, c.stripeSize)
    ensures Loadable(c, PutAll(c, st, id, data), id, i)
  {
    hide PutAll, StripeCount, SameReads, Gathered, ValidCount, LengthSeen, Eroded, Complete;
    PutCompletes(c, EMPTY, id, data);
    ErodedIsLoadable(c, c, PutAll(c, EMPTY, id, data), id, data, i);
    PutReadsAlike(c, st, id, data, i);
    SameCounts(c, PutAll(c, st, id, data), c, PutAll(c, EMPTY, id, data), id, i, c.params.ShardCount());
  }

  /** Opens an object and reads it to its end: what reading it at once gives. */
  method ReadWhole(o: ObjectStore, id: ObjectID, n: nat) returns (res: Result<i64>, out: seq<byte>, end: Status)
    requires o.store.Valid() && o.store.Admits(id) && o.Cfg().Valid() && n > 0
    requires Visible(o.store.State(), id) < MAX_U32 && AllLoadable(o.Cfg(), o.store.State(), id, Visible(o.store.State(), id))
    ensures match ReadAll(o.Cfg(), o.store.State(), id)
      case NotOpened(e) => res == Err(e)
      case Done(bytes) => res.Ok? && out == bytes && end == Eof
      case Broken(bytes, e) => res.Ok? && out == bytes && end == Failed(e)
  {
    hide MemStore.Valid, FileStore.Valid, Collect, Loadable, FirstLength, Wrap64;
    out, end := [], Eof;
    var body := o.GetObject(id);
    match body
    case Err(e) => res := Err(e);
    case Ok(EmptyBody(size)) => res := Ok(size);
    case Ok(Streaming(rd, size)) =>
      out, end := ReadToEnd(rd, n);
      res := Ok(size);
  }

  /** Putting an object where no stripe is listed beyond its own and reading it back gives the bytes that were put. */
  method PutThenGet(o: ObjectStore, ctx: Context, id: ObjectID, data: seq<byte>, n: nat)
    returns (res: Result<()>, out: seq<byte>)
    requires o.store.Valid() && o.store.Admits(id) && id != [] && n > 0
    requires Fits(o.Cfg(), data) && Visible(o.store.State(), id) <= StripeCount(|data|, o.stripeSize)
    modifies o.store.Repr()
    ensures o.store.Valid()
    ensures res == if o.Stopped(ctx, id, |data|, |data|) then Err(o.StopOf(ctx, id).error) else Ok(())
    ensures res.Ok? ==> out == data
  {
    hide MemStore.Valid, FileStore.Valid, PutAll, PutPart, StripeCount, ReadAll, PutStripes, AllLoadable, FullCount, Visible,
         ObjectStore.Stopped, ObjectStore.StopOf, AllDescribed;
    ghost var c, st := o.Cfg(), o.store.State();
    out := [];
    var r := new InputReader(data);
    assert data[..|data|] == data;
    res := o.PutObject(ctx, id, r, |data|);
    if res.Err? {
      return;
    }
    VisibleAfterPut(c, st, id, data);
    PutReadsBack(c, st, id, data);
    PutIsAllLoadable(c, st, id, data);
    var size, all, end := ReadWhole(o, id, n);
    out := all;
  }

  lemma PutIsAllLoadable(c: Config, st: StoreState, id: ObjectID, data: seq<byte>)
    requires Fits(c, data)
    ensures AllLoadable(c, PutAll(c, st, id, data), id, StripeCount(|data|, c.stripeSize))
  {
    hide PutAll, StripeCount, Loadable;
    forall i: u32 | i < StripeCount(|data|, c.stripeSize)
      ensures Loadable(c, PutAll(c, st, id, data), id, i)
    {
      PutIsLoadable(c, st, id, data, i);
    }
  }

  // ----- Runs

  /** The event names objects the store is used with, and the store takes their shards. */
  ghost predicate Welcome(o: ObjectStore, e: Event) {
    match e
    case Put(_, id, _) => o.store.Admits(id) && o.StopOf(Live, id).Never?
    case Delete(id) => o.store.Admits(id)
    case Lose(key) => o.store.Admits(key.objectID)
    case Rot(key, _) => o.store.Admits(key.objectID)
  }

  ghost predicate AllWelcome(o: ObjectStore, events: seq<Event>) { forall e :: e in events ==> Welcome(o, e) }

  /** Performs one event through the methods of the stores; a put under other flags by a process started with them. */
  method Act(o: ObjectStore, e: Event)
    requires o.store.Valid() && Welcome(o, e) && Allowed(o.store.Hash(), o.store.State(), e)
    modifies o.store.Repr()
    ensures o.store.Valid() && fresh(o.store.Repr() - old(o.store.Repr()))
    ensures o.store.State() == Next(old(o.store.State()), e)
  {
    hide MemStore.Valid, FileStore.Valid, PutAll, PutPart, DeleteAll, StripeCount, FullCount, WithoutShard, WithPayload,
         NoneBeyond, Available;
    match e
    case Put(c, id, data) =>
      var r := new InputReader(data);
      var writer := new ObjectStore(o.store, c.params, c.stripeSize);
      assert data[..|data|] == data && writer.Cfg() == c;
      var put := writer.PutObject(Live, id, r, |data|);
    case Delete(id) =>
      var deleted := o.DeleteObject(id);
    case Lose(key) =>
      var lost := o.store.DeleteShard(key);
    case Rot(key, payload) =>
      o.store.Rot(key, payload);
  }

  /** Performs a run. */
  method PerformRun(o: ObjectStore, events: seq<Event>)
    requires o.store.Valid() && AllWelcome(o, events) && Possible(o.store.Hash(), o.store.State(), events)
    modifies o.store.Repr()
    ensures o.store.Valid() && fresh(o.store.Repr() - old(o.store.Repr()))
    ensures o.store.State() == After(o.store.Hash(), old(o.store.State()), events)
  {
    hide MemStore.Valid, FileStore.Valid, Next, Allowed, Welcome;
    ghost var hash := o.store.Hash();
    for i := 0 to |events|
      invariant o.store.Valid() && fresh(o.store.Repr() - old(o.store.Repr()))
      invariant Possible(hash, o.store.State(), events[i..])
      invariant After(hash, o.store.State(), events[i..]) == After(hash, old(o.store.State()), events)
    {
      assert events[i] in events;
      assert events[i..][1..] == events[i + 1..];
      Act(o, events[i]);
    }
  }

  /** Reads an object in turns, faults and other operations coming before each call. */
  method ReadInTurns(o: ObjectStore, rd: ObjectReader, turns: seq<Turn>, ghost m: Objects) returns (out: seq<byte>, end: Status)
    requires o.store.Valid() && o.Cfg().Valid() && rd.Valid()
    requires rd.store == o.store && rd.params == o.params && rd.stripeSize == o.stripeSize
    requires Holds(o.store.Hash(), o.store.State(), m) && rd.id in m
    requires PossibleTurns(o.store.Hash(), o.store.State(), rd.id, turns)
    requires forall i :: 0 <= i < |turns| ==> AllWelcome(o, turns[i].events)
    modifies o.store.Repr(), rd, rd.buf
    ensures o.store.Valid() && rd.Valid()
    ensures var calls := CallsOf(o.store.Hash(), old(o.store.State()), rd.id, turns);
      var d := Drain(o.Cfg(), rd.id, rd.totalStripes, old(rd.At()), calls);
      out == d.out && end == d.status && rd.At() == d.next
    decreases |turns|
  {
    hide MemStore.Valid, FileStore.Valid, Possible, After, Holds, AllMeant, Loadable, ReadStep, Spares, AllWelcome;
    if |turns| == 0 {
      return [], More;
    }
    ghost var hash, st := o.store.Hash(), o.store.State();
    PerformRun(o, turns[0].events);
    ghost var now := o.store.State();
    RunHolds(hash, st, m, turns[0].events);
    SparedIsMeant(m, turns[0].events, rd.id);
    HeldIsLoadable(o.Cfg(), now, AllMeant(m, turns[0].events), rd.id, rd.stripeIdx);
    var p := new byte[turns[0].n];
    var n, status := rd.Read(p);
    out, end := p[..n], status;
    if status == More {
      var rest, last := ReadInTurns(o, rd, turns[1..], AllMeant(m, turns[0].events));
      out, end := out + rest, last;
    }
  }

  lemma HeldIsLoadable(d: Config, st: StoreState, m: Objects, id: ObjectID, i: u32)
    requires d.Valid() && Holds(d.hash, st, m) && id in m
    ensures Loadable(d, st, id, i)
  {
    hide Loadable, Eroded;
    ErodedIsLoadable(m[id].config, d, st, id, m[id].data, i);
  }

  /**
   * Performs a run on an empty store, opens an object that it holds and reads it in turns: the body announces the size
   * and the stripes that opening finds, and the reader receives what the theorem on runs says.
   */
  method RunThenRead(o: ObjectStore, events: seq<Event>, id: ObjectID, turns: seq<Turn>)
    returns (res: Result<i64>, out: seq<byte>, end: Status)
    requires o.store.Valid() && o.Cfg().Valid() && o.store.State() == EMPTY && o.store.Admits(id)
    requires AllWelcome(o, events) && Possible(o.store.Hash(), EMPTY, events) && id in AllMeant(map[], events)
    requires PossibleTurns(o.store.Hash(), After(o.store.Hash(), EMPTY, events), id, turns)
    requires forall i :: 0 <= i < |turns| ==> AllWelcome(o, turns[i].events)
    modifies o.store.Repr()
    ensures var d, w := o.Cfg(), AllMeant(map[], events)[id];
      var st := After(d.hash, EMPTY, events);
      Fits(w.config, w.data) &&
      match Open(d, st, id)
      case Err(e) => res == Err(e) && e == Unrecoverable
      case Ok(Empty(size)) => res == Ok(size) && size == |w.data| && out == [] && end == Eof
      case Ok(Stream(total, size)) =>
        var calls := CallsOf(d.hash, st, id, turns);
        && res == Ok(size)
        && out == Drain(d, id, total, START, calls).out && end == Drain(d, id, total, START, calls).status
        && (Suits(d, w.config) ==> Delivers(w.config, d, id, w.data, total, calls))
  {
    hide MemStore.Valid, FileStore.Valid, Possible, After, AllMeant, Holds, Open, Drain, PossibleTurns, CallsOf, AllWelcome,
         Delivers, Fits;
    ghost var d, m := o.Cfg(), AllMeant(map[], events);
    PerformRun(o, events);
    ghost var st := o.store.State();
    EmptyHolds(d.hash);
    RunHolds(d.hash, EMPTY, map[], events);
    RunsStreamBack(d, events, id, turns);
    var body := o.GetObject(id);
    out, end := [], Eof;
    match body
    case Err(e) => res := Err(e);
    case Ok(EmptyBody(size)) => res := Ok(size);
    case Ok(Streaming(rd, size)) =>
      res := Ok(size);
      assert rd !in o.store.Repr() && rd.buf !in o.store.Repr();
      out, end := ReadInTurns(o, rd, turns, m);
  }

  lemma EmptyHolds(hash: StoreModel.Hash)
    ensures Holds(hash, EMPTY, map[])
  {
  }
}
