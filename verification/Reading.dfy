/** Reading an object to its end, at once or in pieces. */
module Reading {
  import opened Bytes
  import opened Types
  import opened Listing
  import opened StoreModel
  import opened ObjectModel

  datatype Outcome = Done(bytes: seq<byte>) | Broken(bytes: seq<byte>, error: Error) | NotOpened(error: Error)

  /** The stripes from i on, up to the end or to the first that fails. */
  function Collect(c: Config, st: StoreState, id: ObjectID, i: u32, total: u32): (o: Outcome)
    requires c.Valid()
    ensures !o.NotOpened?
    decreases total - i
  {
    if i >= total then Done([])
    else
      match StripeRead(c, st, id, i)
      case Err(e) => Broken([], e)
      case Ok(s) =>
        if |s| == 0 then Done([])
        else
          var rest := Collect(c, st, id, i + 1, total);
          rest.(bytes := s + rest.bytes)
  }

  /** Opening an object and reading it to its end. */
  ghost function ReadAll(c: Config, st: StoreState, id: ObjectID): Outcome
    requires c.Valid()
  {
    match Open(c, st, id)
    case Err(e) => NotOpened(e)
    case Ok(Empty(_)) => Done([])
    case Ok(Stream(total, _)) => Collect(c, st, id, 0, total)
  }

  // ----- In pieces

  /** One call of Read: the store as it finds it, and the size of its buffer. */
  datatype Call = Call(st: StoreState, n: nat)

  /** What a series of calls has come to, and how many of them were made. */
  datatype Drained = Drained(next: Cursor, out: seq<byte>, status: Status, made: nat)

  /** Calls Read until one call ends the stream or fails; the store may change between calls. */
  function Drain(c: Config, id: ObjectID, total: u32, at: Cursor, calls: seq<Call>): (end: Drained)
    requires c.Valid() && at.Valid()
    ensures end.next.Valid() && end.made <= |calls|
    decreases |calls|
  {
    if |calls| == 0 then Drained(at, [], More, 0)
    else
      var first := ReadStep(c, calls[0].st, id, total, at, calls[0].n);
      if first.status != More then Drained(first.next, first.out, first.status, 1)
      else
        var rest := Drain(c, id, total, first.next, calls[1..]);
        rest.(out := first.out + rest.out, made := rest.made + 1)
  }

  ghost predicate AllPositive(calls: seq<Call>) { forall i :: 0 <= i < |calls| ==> calls[i].n > 0 }

  // ----- In pieces, from a store that does not change

  ghost predicate Still(calls: seq<Call>, st: StoreState) { forall i :: 0 <= i < |calls| ==> calls[i].st == st }

  /** The stripes before the given one, end to end. */
  function Before(c: Config, st: StoreState, id: ObjectID, i: u32): seq<byte>
    requires c.Valid()
    decreases i
  {
    if i == 0 then []
    else
      var r := StripeRead(c, st, id, i - 1);
      Before(c, st, id, i - 1) + if r.Ok? then r.value else []
  }

  /** All of the object that lies before a cursor. */
  function Delivered(c: Config, st: StoreState, id: ObjectID, at: Cursor): seq<byte>
    requires c.Valid() && at.Valid()
  {
    Before(c, st, id, at.stripe) + at.buf[..at.off]
  }

  /** What is buffered, if anything, is a stripe of the object as the store holds it. */
  predicate Within(c: Config, st: StoreState, id: ObjectID, total: u32, at: Cursor)
    requires c.Valid() && at.Valid()
  {
    at.buf != [] ==> at.stripe < total && StripeRead(c, st, id, at.stripe) == Ok(at.buf)
  }

  /** What is still to come after a cursor. */
  function Remaining(c: Config, st: StoreState, id: ObjectID, total: u32, at: Cursor): (o: Outcome)
    requires c.Valid() && at.Valid()
    ensures !o.NotOpened?
  {
    if at.stripe >= total then Done([])
    else if at.buf == [] then Collect(c, st, id, at.stripe, total)
    else
      var rest := Collect(c, st, id, at.stripe + 1, total);
      rest.(bytes := at.buf[at.off..] + rest.bytes)
  }

  /** Handing out moves the cursor over exactly the bytes handed out. */
  lemma HandOutMoves(c: Config, st: StoreState, id: ObjectID, total: u32, at: Cursor, n: nat)
    requires c.Valid() && at.Valid() && Within(c, st, id, total, at) && at.buf != []
    ensures var step := HandOut(at, n);
      && Within(c, st, id, total, step.next)
      && |step.out| <= n && (n > 0 ==> |step.out| > 0)
      && Delivered(c, st, id, step.next) == Delivered(c, st, id, at) + step.out
  {
    hide StripeRead;
    NoWrap(at.stripe + 1);
    var step := HandOut(at, n);
    assert at.buf[..at.off] + step.out == at.buf[..at.off + |step.out|];
    assert at.buf[..|at.buf|] == at.buf;
  }

  /** And takes them off what is still to come. */
  lemma HandOutRemains(c: Config, st: StoreState, id: ObjectID, total: u32, at: Cursor, n: nat)
    requires c.Valid() && at.Valid() && Within(c, st, id, total, at) && at.buf != []
    ensures var step := HandOut(at, n);
      var later := Remaining(c, st, id, total, step.next);
      Remaining(c, st, id, total, at) == later.(bytes := step.out + later.bytes)
  {
    hide StripeRead, Collect, Remaining;
    NoWrap(at.stripe + 1);
    var step := HandOut(at, n);
    RemainingBuffered(c, st, id, total, at);
    if step.next.buf == [] {
      RemainingFrom(c, st, id, total, at.stripe + 1);
    } else {
      RemainingBuffered(c, st, id, total, step.next);
    }
    SplitAt(at.buf, Collect(c, st, id, at.stripe + 1, total).bytes, at.off, |step.out|);
  }

  /** From the start of a stripe there remains what collecting from it gives. */
  lemma RemainingFrom(c: Config, st: StoreState, id: ObjectID, total: u32, i: u32)
    requires c.Valid()
    ensures Remaining(c, st, id, total, Cursor(i, [], 0)) == Collect(c, st, id, i, total)
  {
    hide StripeRead;
  }

  /** Within a stripe there remain the rest of it and all that comes after it. */
  lemma RemainingBuffered(c: Config, st: StoreState, id: ObjectID, total: u32, at: Cursor)
    requires c.Valid() && at.Valid() && at.stripe < total && at.buf != []
    ensures var rest := Collect(c, st, id, at.stripe + 1, total);
      Remaining(c, st, id, total, at) == rest.(bytes := at.buf[at.off..] + rest.bytes)
  {
    hide StripeRead, Collect;
  }

  /** Taking m more bytes of s, and what then remains of s and its continuation. */
  lemma SplitAt(s: seq<byte>, rest: seq<byte>, off: nat, m: nat)
    requires off + m <= |s|
    ensures s[off..] + rest == s[off..off + m] + (s[off + m..] + rest)
    ensures off + m == |s| ==> s[off..] + rest == s[off..off + m] + rest
  {
  }

  /** A call that loads a stripe goes on as one that had it in its buffer. */
  lemma LoadedIsBuffered(c: Config, st: StoreState, id: ObjectID, total: u32, at: Cursor, n: nat)
    requires c.Valid() && at.Valid() && at.stripe < total && at.buf == []
    requires StripeRead(c, st, id, at.stripe).Ok? && StripeRead(c, st, id, at.stripe).value != []
    ensures var full := Cursor(at.stripe, StripeRead(c, st, id, at.stripe).value, 0);
      && Within(c, st, id, total, full)
      && ReadStep(c, st, id, total, at, n) == HandOut(full, n)
      && Delivered(c, st, id, full) == Delivered(c, st, id, at)
      && Remaining(c, st, id, total, full) == Remaining(c, st, id, total, at)
  {
    hide StripeRead, HandOut;
    var s := StripeRead(c, st, id, at.stripe).value;
    assert s[0..] == s && s[..0] == [];
  }

  /** A call that ends the stream or fails does not move over any bytes. */
  lemma NothingHandedOut(c: Config, st: StoreState, id: ObjectID, total: u32, at: Cursor, n: nat)
    requires c.Valid() && at.Valid() && (at.buf != [] ==> at.stripe >= total)
    requires at.stripe < total && StripeRead(c, st, id, at.stripe).Ok? ==> StripeRead(c, st, id, at.stripe).value == []
    ensures var step := ReadStep(c, st, id, total, at, n);
      step.out == [] && Delivered(c, st, id, step.next) == Delivered(c, st, id, at)
  {
    hide StripeRead;
    if at.stripe < total {
      NoWrap(at.stripe + 1);
    }
  }

  /** Each call with a real buffer makes progress, ends the stream or fails; what it hands out is what came next. */
  lemma StepAdvances(c: Config, st: StoreState, id: ObjectID, total: u32, at: Cursor, n: nat)
    requires c.Valid() && at.Valid() && Within(c, st, id, total, at)
    ensures var step := ReadStep(c, st, id, total, at, n);
      var now, later := Remaining(c, st, id, total, at), Remaining(c, st, id, total, step.next);
      Delivered(c, st, id, step.next) == Delivered(c, st, id, at) + step.out &&
      match step.status
      case More =>
        && Within(c, st, id, total, step.next)
        && |step.out| <= n && (n > 0 ==> |step.out| > 0)
        && now == later.(bytes := step.out + later.bytes)
      case Eof => step.out == [] && now == Done([])
      case Failed(e) => step.out == [] && now == Broken([], e)
  {
    hide StripeRead, HandOut, Delivered;
    if at.stripe < total && at.buf != [] {
      HandOutMoves(c, st, id, total, at, n);
      HandOutRemains(c, st, id, total, at, n);
    } else if at.stripe < total && StripeRead(c, st, id, at.stripe).Ok? && StripeRead(c, st, id, at.stripe).value != [] {
      LoadedIsBuffered(c, st, id, total, at, n);
      var full := Cursor(at.stripe, StripeRead(c, st, id, at.stripe).value, 0);
      HandOutMoves(c, st, id, total, full, n);
      HandOutRemains(c, st, id, total, full, n);
    } else {
      NothingHandedOut(c, st, id, total, at, n);
    }
  }

  /** Whatever the buffer sizes, the output is what lies between the cursors, and a prefix of what was to come. */
  lemma {:induction false} ChunksDeliver(c: Config, st: StoreState, id: ObjectID, total: u32, at: Cursor, calls: seq<Call>)
    requires c.Valid() && at.Valid() && Within(c, st, id, total, at) && Still(calls, st)
    ensures var end := Drain(c, id, total, at, calls);
      && Delivered(c, st, id, end.next) == Delivered(c, st, id, at) + end.out
      && end.out <= Remaining(c, st, id, total, at).bytes
    decreases |calls|
  {
    hide ReadStep, Delivered, Remaining, Within;
    if |calls| > 0 {
      StepAdvances(c, st, id, total, at, calls[0].n);
      var first := ReadStep(c, st, id, total, at, calls[0].n);
      if first.status == More {
        ChunksDeliver(c, st, id, total, first.next, calls[1..]);
      }
    }
  }

  /** Enough calls with real buffers of any sizes read the object to its end, and end as reading at once does. */
  lemma {:induction false} ChunksReachTheEnd(c: Config, st: StoreState, id: ObjectID, total: u32, at: Cursor, calls: seq<Call>)
    requires c.Valid() && at.Valid() && Within(c, st, id, total, at) && Still(calls, st) && AllPositive(calls)
    requires |calls| > |Remaining(c, st, id, total, at).bytes|
    ensures var end := Drain(c, id, total, at, calls);
      match Remaining(c, st, id, total, at)
      case Done(bytes) => end.out == bytes && end.status == Eof
      case Broken(bytes, e) => end.out == bytes && end.status == Failed(e)
      case NotOpened(_) => false
    decreases |calls|
  {
    hide ReadStep, Remaining, Within, Delivered;
    var step := ReadStep(c, st, id, total, at, calls[0].n);
    StepAdvances(c, st, id, total, at, calls[0].n);
    if step.status == More {
      ChunksReachTheEnd(c, st, id, total, step.next, calls[1..]);
    }
  }

  /** An empty stripe ends the stream although more may follow; a call after that goes on behind it. */
  lemma EmptyStripeEnds(c: Config, st: StoreState, id: ObjectID, total: u32, i: u32, n: nat)
    requires c.Valid() && i < total && StripeRead(c, st, id, i) == Ok([])
    ensures Collect(c, st, id, i, total) == Done([])
    ensures ReadStep(c, st, id, total, Cursor(i, [], 0), n) == Step(Cursor(i + 1, [], 0), [], Eof)
  {
    hide StripeRead;
    NoWrap(i + 1);
  }

  // ----- Objects do not disturb each other

  /** Both stores hold the same shards and the same marker for an object. */
  ghost predicate SameObject(s: StoreState, t: StoreState, id: ObjectID) {
    && (forall k: ShardKey :: k.objectID == id ==>
          (k in s.shards <==> k in t.shards) && (k in s.shards ==> s.shards[k] == t.shards[k]))
    && MarkerOf(s, id) == MarkerOf(t, id)
  }

  /** Both stores hold the same shards of an object from some stripe on. */
  ghost predicate SameFrom(s: StoreState, t: StoreState, id: ObjectID, lo: nat) {
    forall k: ShardKey :: k.objectID == id && k.stripeIdx >= lo ==>
      (k in s.shards <==> k in t.shards) && (k in s.shards ==> s.shards[k] == t.shards[k])
  }

  /** Two readers, each of a store of its own, get the same of the first n shards of a stripe. */
  ghost predicate SameReads(c: Config, s: StoreState, d: Config, t: StoreState, id: ObjectID, i: u32, n: nat) {
    forall j: u32 :: j < n ==> Read(c, s, id, i, j) == Read(d, t, id, i, j)
  }

  lemma SameFromReads(c: Config, s: StoreState, d: Config, t: StoreState, id: ObjectID, lo: nat, i: u32, n: nat)
    requires SameFrom(s, t, id, lo) && lo <= i && c.hash == d.hash
    ensures SameReads(c, s, d, t, id, i, n)
  {
    forall j: u32 | j < n
      ensures Read(c, s, id, i, j) == Read(d, t, id, i, j)
    {
      assert ShardKey(id, i, j).objectID == id;
    }
  }

  lemma {:induction false} SameCounts(c: Config, s: StoreState, d: Config, t: StoreState, id: ObjectID, i: u32, n: nat)
    requires n < MAX_U32 && SameReads(c, s, d, t, id, i, n)
    ensures ValidCount(c, s, id, i, n) == ValidCount(d, t, id, i, n)
    ensures LengthSeen(c, s, id, i, n) == LengthSeen(d, t, id, i, n)
    ensures Gathered(c, s, id, i, n) == Gathered(d, t, id, i, n)
    decreases n
  {
    hide Read;
    if n > 0 {
      SameCounts(c, s, d, t, id, i, n - 1);
    }
  }

  lemma SameStripe(c: Config, s: StoreState, d: Config, t: StoreState, id: ObjectID, i: u32)
    requires c.Valid() && d.Valid() && c.params == d.params && SameReads(c, s, d, t, id, i, c.params.ShardCount())
    ensures StripeRead(c, s, id, i) == StripeRead(d, t, id, i)
  {
    hide SameReads, Gathered, ValidCount, LengthSeen;
    SameCounts(c, s, d, t, id, i, c.params.ShardCount());
  }

  lemma {:induction false} SameFirstLength(
    c: Config, s: StoreState, d: Config, t: StoreState, id: ObjectID, i: u32, j: nat)
    requires c.params.Valid() && c.params == d.params && SameReads(c, s, d, t, id, i, c.params.ShardCount())
    ensures FirstLength(c, s, id, i, j) == FirstLength(d, t, id, i, j)
    decreases c.params.ShardCount() - j
  {
    hide Read;
    if j < c.params.ShardCount() {
      SameFirstLength(c, s, d, t, id, i, j + 1);
    }
  }

  lemma {:induction false} SameCollect(
    c: Config, s: StoreState, d: Config, t: StoreState, id: ObjectID, lo: nat, i: u32, total: u32)
    requires c.Valid() && d.Valid() && c.hash == d.hash && c.params == d.params && SameFrom(s, t, id, lo) && lo <= i
    ensures Collect(c, s, id, i, total) == Collect(d, t, id, i, total)
    decreases total - i
  {
    hide SameFrom, SameReads, StripeRead;
    if i < total {
      SameFromReads(c, s, d, t, id, lo, i, c.params.ShardCount());
      SameStripe(c, s, d, t, id, i);
      SameCollect(c, s, d, t, id, lo, i + 1, total);
    }
  }

  /** The marker of an object makes no difference as long as a shard is listed. */
  lemma SameShardsRead(c: Config, s: StoreState, t: StoreState, id: ObjectID)
    requires c.Valid() && id != [] && SameFrom(s, t, id, 0)
    requires KeysOf(s.shards.Keys, id) == {} ==> MarkerOf(s, id) == MarkerOf(t, id)
    ensures Open(c, s, id) == Open(c, t, id) && ReadAll(c, s, id) == ReadAll(c, t, id)
  {
    hide Collect, FirstLength, SameReads;
    assert KeysOf(s.shards.Keys, id) == KeysOf(t.shards.Keys, id);
    var keys := KeysOf(s.shards.Keys, id);
    if keys != {} {
      SameFromReads(c, s, c, t, id, 0, MaxStripe(keys), c.params.ShardCount());
      SameFirstLength(c, s, c, t, id, MaxStripe(keys), 0);
    }
    match Open(c, s, id)
    case Ok(Stream(total, _)) => SameCollect(c, s, c, t, id, 0, 0, total);
    case _ =>
  }

  /** Equal shards and marker read equally. */
  lemma SameReadAll(c: Config, s: StoreState, t: StoreState, id: ObjectID)
    requires c.Valid() && id != [] && SameObject(s, t, id)
    ensures Open(c, s, id) == Open(c, t, id) && ReadAll(c, s, id) == ReadAll(c, t, id)
  {
    hide Open, ReadAll;
    SameShardsRead(c, s, t, id);
  }
}
