/** Whole runs: under puts, deletes and shard faults the store stays a map from object ids to bytes. */
module Runs {
  import opened Bytes
  import opened Types
  import opened Listing
  import opened StoreModel
  import opened ObjectModel
  import opened Placement
  import opened Reading
  import opened Recovery
  import opened Durability
  import opened Streaming
  import opened Overwriting

  /**
   * What clients do, and what befalls single shards between their operations. The store outlives the process, which may be
   * started again with other flags: every put has its own configuration.
   */
  datatype Event =
    | Put(config: Config, id: ObjectID, data: seq<byte>)
    | Delete(id: ObjectID)
    | Lose(key: ShardKey)
    | Rot(key: ShardKey, payload: seq<byte>)

  /** The bytes put last, and the configuration they were put under. */
  datatype Written = Written(config: Config, data: seq<byte>)

  type Objects = map<ObjectID, Written>

  /**
   * A put leaves no stripe and no shard of the object beyond its own, as a look at the listing tells beforehand; deletes
   * name an object; rot changes the payload to one with another checksum. Losses are not restricted.
   */
  ghost predicate Allowed(hash: StoreModel.Hash, st: StoreState, e: Event) {
    match e
    case Put(c, id, data) =>
      id != [] && c.hash == hash && Fits(c, data) && NoneBeyond(c, st, id, StripeCount(|data|, c.stripeSize))
    case Delete(id) => id != []
    case Lose(_) => true
    case Rot(key, payload) => key in st.shards ==> hash(payload) != st.shards[key].h.checksum
  }

  function Next(st: StoreState, e: Event): StoreState
    requires e.Put? ==> e.config.Valid() && |e.data| < 0x8000_0000_0000_0000
  {
    match e
    case Put(c, id, data) => PutAll(c, st, id, data)
    case Delete(id) => DeleteAll(st, id)
    case Lose(key) => WithoutShard(st, key)
    case Rot(key, payload) => WithPayload(st, key, payload)
  }

  /** What the clients' operations mean; faults mean nothing. */
  function Meant(m: Objects, e: Event): Objects {
    match e
    case Put(c, id, data) => m[id := Written(c, data)]
    case Delete(id) => m - {id}
    case _ => m
  }

  ghost predicate Held(hash: StoreModel.Hash, st: StoreState, id: ObjectID, w: Written) {
    id != [] && w.config.hash == hash && Fits(w.config, w.data) && Eroded(w.config, st, id, w.data)
  }

  /** Every object that was put and not deleted is held, eroded perhaps, and nothing else is. */
  ghost predicate Holds(hash: StoreModel.Hash, st: StoreState, m: Objects) {
    && (forall id :: id in m ==> Held(hash, st, id, m[id]))
    && (forall k :: k in st.shards ==> k.objectID in m)
    && (forall id :: id in st.markers ==> id in m)
  }

  // ----- One step

  lemma ErodedElsewhere(c: Config, s: StoreState, t: StoreState, id: ObjectID, data: seq<byte>)
    requires Fits(c, data) && Eroded(c, s, id, data) && SameObject(s, t, id)
    ensures Eroded(c, t, id, data)
  {
    hide Ideal, StripeCount;
  }

  lemma PutHolds(hash: StoreModel.Hash, st: StoreState, m: Objects, c: Config, id: ObjectID, data: seq<byte>)
    requires Holds(hash, st, m) && Allowed(hash, st, Put(c, id, data))
    ensures Holds(hash, PutAll(c, st, id, data), m[id := Written(c, data)])
  {
    hide Ideal, StripeCount, PutStripes, MaybeRotten, Fits;
    ValidIfFits(c, data);
    var t, r := StripeCount(|data|, c.stripeSize), PutAll(c, st, id, data);
    PutCompletes(c, st, id, data);
    forall other | other in m && other != id
      ensures Held(hash, r, other, m[other])
    {
      Isolation(c, st, id, data, other);
      ErodedElsewhere(m[other].config, st, r, other, m[other].data);
    }
    forall k | k in r.shards
      ensures k.objectID in m[id := Written(c, data)]
    {
      PutStripesAt(c, st, id, data, t, k);
    }
    PutStripesAt(c, st, id, data, t, ShardKey(id, 0, 0));
  }

  lemma ValidIfFits(c: Config, data: seq<byte>)
    requires Fits(c, data)
    ensures c.Valid() && |data| < 0x8000_0000_0000_0000 && StripeCount(|data|, c.stripeSize) < MAX_U32
  {
  }

  lemma DeleteIsLocal(st: StoreState, id: ObjectID, other: ObjectID)
    requires id != [] && other != id
    ensures SameObject(st, DeleteAll(st, id), other)
  {
  }

  lemma DeleteHolds(hash: StoreModel.Hash, st: StoreState, m: Objects, id: ObjectID)
    requires Holds(hash, st, m) && id != []
    ensures Holds(hash, DeleteAll(st, id), m - {id})
  {
    hide Eroded, Fits, SameObject;
    var r := DeleteAll(st, id);
    forall other | other in m && other != id
      ensures Held(hash, r, other, m[other])
    {
      DeleteIsLocal(st, id, other);
      ErodedElsewhere(m[other].config, st, r, other, m[other].data);
    }
  }

  /** Losing a shard erodes every object that is held. */
  lemma LossErodes(c: Config, st: StoreState, key: ShardKey, id: ObjectID, data: seq<byte>)
    requires Fits(c, data) && Eroded(c, st, id, data)
    ensures Eroded(c, WithoutShard(st, key), id, data)
  {
    hide Ideal, StripeCount, MaybeRotten;
  }

  /** So does rot that shows in the checksum. */
  lemma RotErodes(c: Config, st: StoreState, key: ShardKey, payload: seq<byte>, id: ObjectID, data: seq<byte>)
    requires Fits(c, data) && Eroded(c, st, id, data) && Allowed(c.hash, st, Rot(key, payload))
    ensures Eroded(c, WithPayload(st, key, payload), id, data)
  {
    hide Ideal, StripeCount;
  }

  lemma FaultHolds(hash: StoreModel.Hash, st: StoreState, m: Objects, e: Event)
    requires Holds(hash, st, m) && Allowed(hash, st, e) && (e.Lose? || e.Rot?)
    ensures Holds(hash, Next(st, e), m)
  {
    hide Eroded, Fits, Allowed;
    forall id | id in m
      ensures Held(hash, Next(st, e), id, m[id])
    {
      if e.Lose? {
        LossErodes(m[id].config, st, e.key, id, m[id].data);
      } else {
        RotErodes(m[id].config, st, e.key, e.payload, id, m[id].data);
      }
    }
  }

  lemma StepHolds(hash: StoreModel.Hash, st: StoreState, m: Objects, e: Event)
    requires Holds(hash, st, m) && Allowed(hash, st, e)
    ensures Holds(hash, Next(st, e), Meant(m, e))
  {
    hide Holds, PutAll, DeleteAll, StripeCount;
    match e
    case Put(c, id, data) => PutHolds(hash, st, m, c, id, data);
    case Delete(id) => DeleteHolds(hash, st, m, id);
    case _ => FaultHolds(hash, st, m, e);
  }

  // ----- Runs

  /** Every event of a run is allowed when it happens. */
  ghost predicate Possible(hash: StoreModel.Hash, st: StoreState, events: seq<Event>)
    decreases |events|
  {
    |events| == 0 || (Allowed(hash, st, events[0]) && Possible(hash, Next(st, events[0]), events[1..]))
  }

  /** The store after a run. */
  ghost function After(hash: StoreModel.Hash, st: StoreState, events: seq<Event>): StoreState
    requires Possible(hash, st, events)
    decreases |events|
  {
    if |events| == 0 then st else After(hash, Next(st, events[0]), events[1..])
  }

  /** What a run means. */
  function AllMeant(m: Objects, events: seq<Event>): Objects
    decreases |events|
  {
    if |events| == 0 then m else AllMeant(Meant(m, events[0]), events[1..])
  }

  lemma {:induction false} RunHolds(hash: StoreModel.Hash, st: StoreState, m: Objects, events: seq<Event>)
    requires Holds(hash, st, m) && Possible(hash, st, events)
    ensures Holds(hash, After(hash, st, events), AllMeant(m, events))
    decreases |events|
  {
    hide Holds, Next, Meant, StripeCount, NoneBeyond;
    if |events| > 0 {
      StepHolds(hash, st, m, events[0]);
      RunHolds(hash, Next(st, events[0]), Meant(m, events[0]), events[1..]);
    }
  }

  /**
   * After any run from the empty store, a reader that counts on no fewer data shards than the last put of an object reads
   * back exactly the bytes of that put if and only if each stripe has as many valid shards left, among those the reader
   * knows of, as it counts data shards. An object not put, or deleted since, is not found by any reader.
   */
  lemma RunsReadBack(d: Config, events: seq<Event>, id: ObjectID)
    requires d.Valid() && id != [] && Possible(d.hash, EMPTY, events)
    ensures var st, m := After(d.hash, EMPTY, events), AllMeant(map[], events);
      && (id in m ==>
            && Reads(d, m[id].config) && Fits(m[id].config, m[id].data)
            && (Suits(d, m[id].config) ==>
                  (ReadAll(d, st, id) == Outcome.Done(m[id].data) <==> EveryStripeRecoverable(d, st, id, m[id]))))
      && (id !in m ==> ReadAll(d, st, id) == NotOpened(ObjectNotFound))
  {
    hide AllRecoverable, Eroded, Collect, Possible, StripeCount, ReadAll;
    var st, m := After(d.hash, EMPTY, events), AllMeant(map[], events);
    RunHolds(d.hash, EMPTY, map[], events);
    hide After, AllMeant;
    if id !in m {
      NothingHeld(d, st, m, id);
    } else if Suits(d, m[id].config) {
      ReadsBackExactly(m[id].config, d, st, id, m[id].data);
    }
  }

  lemma NothingHeld(d: Config, st: StoreState, m: Objects, id: ObjectID)
    requires d.Valid() && Holds(d.hash, st, m) && id !in m && id != []
    ensures ReadAll(d, st, id) == NotOpened(ObjectNotFound)
  {
    hide Held;
    assert KeysOf(st.shards.Keys, id) == {};
  }

  ghost predicate EveryStripeRecoverable(d: Config, st: StoreState, id: ObjectID, w: Written)
    requires d.Valid() && Fits(w.config, w.data)
  {
    AllRecoverable(d, st, id, 0, StripeCount(|w.data|, w.config.stripeSize))
  }

  // ----- Runs that go on while an object is read

  /** What happens before a call of Read, and the size of the buffer it is called with. */
  datatype Turn = Turn(events: seq<Event>, n: nat)

  /** Nobody puts or deletes the object; anything may befall its shards. */
  predicate Spares(e: Event, id: ObjectID) { (e.Put? || e.Delete?) ==> e.id != id }

  ghost predicate PossibleTurns(hash: StoreModel.Hash, st: StoreState, id: ObjectID, turns: seq<Turn>)
    decreases |turns|
  {
    |turns| == 0 ||
    (var events := turns[0].events;
     && (forall e :: e in events ==> Spares(e, id))
     && Possible(hash, st, events) && PossibleTurns(hash, After(hash, st, events), id, turns[1..]))
  }

  /** The calls of Read, each on the store as the events so far have left it. */
  ghost function CallsOf(hash: StoreModel.Hash, st: StoreState, id: ObjectID, turns: seq<Turn>): (calls: seq<Call>)
    requires PossibleTurns(hash, st, id, turns)
    ensures |calls| == |turns|
    decreases |turns|
  {
    if |turns| == 0 then []
    else
      var now := After(hash, st, turns[0].events);
      [Call(now, turns[0].n)] + CallsOf(hash, now, id, turns[1..])
  }

  lemma {:induction false} SparedIsMeant(m: Objects, events: seq<Event>, id: ObjectID)
    requires id in m && forall e :: e in events ==> Spares(e, id)
    ensures id in AllMeant(m, events) && AllMeant(m, events)[id] == m[id]
    decreases |events|
  {
    if |events| > 0 {
      assert events[0] in events;
      SparedIsMeant(Meant(m, events[0]), events[1..], id);
    }
  }

  lemma {:induction false} TurnsErode(hash: StoreModel.Hash, st: StoreState, m: Objects, id: ObjectID, turns: seq<Turn>)
    requires Holds(hash, st, m) && id in m && PossibleTurns(hash, st, id, turns)
    ensures Held(hash, st, id, m[id]) && AllEroded(m[id].config, CallsOf(hash, st, id, turns), id, m[id].data)
    decreases |turns|
  {
    hide Possible, After, AllMeant, Eroded, Fits, Spares;
    if |turns| > 0 {
      var events := turns[0].events;
      RunHolds(hash, st, m, events);
      SparedIsMeant(m, events, id);
      TurnsErode(hash, After(hash, st, events), AllMeant(m, events), id, turns[1..]);
    }
  }

  /**
   * After any run from the empty store an object is opened and read with buffers of any sizes, while the run goes on with
   * faults, and with puts and deletes of other objects. A reader that counts on no fewer data shards than the put did only
   * ever receives a prefix of the bytes put last, and when the stream ends, all the stripes counted at opening; it fails
   * only at a stripe that could not be recovered at that moment. If nothing happens while it reads, it receives all the
   * bytes exactly when every stripe is recoverable.
   */
  lemma RunsStreamBack(d: Config, events: seq<Event>, id: ObjectID, turns: seq<Turn>)
    requires d.Valid() && Possible(d.hash, EMPTY, events) && id in AllMeant(map[], events)
    requires PossibleTurns(d.hash, After(d.hash, EMPTY, events), id, turns)
    ensures var st, w := After(d.hash, EMPTY, events), AllMeant(map[], events)[id];
      var calls := CallsOf(d.hash, st, id, turns);
      Reads(d, w.config) && Fits(w.config, w.data) &&
      match Open(d, st, id)
      case Err(e) => e == Unrecoverable
      case Ok(Empty(size)) => size == |w.data|
      case Ok(Stream(total, _)) =>
        && total == Visible(st, id) <= StripeCount(|w.data|, w.config.stripeSize)
        && (Suits(d, w.config) ==>
              && Delivers(w.config, d, id, w.data, total, calls)
              && (AllPositive(calls) && |calls| > |w.data| && Still(calls, st) ==>
                    var end := Drain(d, id, total, START, calls);
                    ((end.out == w.data && end.status == Eof) <==> EveryStripeRecoverable(d, st, id, w))))
  {
    hide Open, Drain, Possible, After, AllMeant, EveryStripeRecoverable, Fits, Eroded, CallsOf, PossibleTurns, Visible,
         Delivers, Still;
    var st, m := After(d.hash, EMPTY, events), AllMeant(map[], events);
    RunHolds(d.hash, EMPTY, map[], events);
    TurnsErode(d.hash, st, m, id, turns);
    var w, calls := m[id], CallsOf(d.hash, st, id, turns);
    ValidIfFits(w.config, w.data);
    OpenEroded(w.config, d, st, id, w.data);
    match Open(d, st, id)
    case Ok(Stream(total, size)) =>
      if Suits(d, w.config) {
        StreamsThroughFaults(w.config, d, id, w.data, total, calls);
        if AllPositive(calls) && |calls| > |w.data| && Still(calls, st) {
          StillStreamsBack(w, d, st, id, total, size, calls);
        }
      }
    case _ =>
  }

  /** A reader of an eroded object that erodes no further receives it all exactly when it is recoverable. */
  lemma StillStreamsBack(w: Written, d: Config, st: StoreState, id: ObjectID, total: u32, size: i64, calls: seq<Call>)
    requires Held(d.hash, st, id, w) && Suits(d, w.config) && Open(d, st, id) == Ok(Stream(total, size))
    requires AllPositive(calls) && |calls| > |w.data| && Still(calls, st)
    ensures var end := Drain(d, id, total, START, calls);
      (end.out == w.data && end.status == Eof) <==> EveryStripeRecoverable(d, st, id, w)
  {
    hide AllRecoverable, Eroded, Collect, Drain, StripeCount;
    ReadsBackExactly(w.config, d, st, id, w.data);
    NeverAWrongByte(w.config, d, st, id, w.data);
    hide Open;
    RemainingFrom(d, st, id, total, 0);
    ChunksReachTheEnd(d, st, id, total, START, calls);
  }
}
