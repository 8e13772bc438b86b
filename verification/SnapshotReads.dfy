/**
 * Concurrent puts, gets, verifications and deletes of shards in memory. What a call does under the lock is one step;
 * hashing, and copying every single byte, are steps of their own outside it.
 */
module SnapshotReads {
  import opened Bytes
  import opened Types
  import opened StoreModel

  type Ref = nat
  type Thread = nat

  /** A table entry: a header and a reference to its payload buffer. */
  datatype Entry = Entry(h: ShardHeader, ref: Ref)

  /**
   * Where a call stands. A get, or a verification, remembers when it began, when it looked up the table, and what it saw
   * there; this only serves to state what it returns.
   */
  datatype Call =
    | Idle
    | PutStamped(key: ShardKey, h: ShardHeader, src: Ref)
    | PutCopying(key: ShardKey, h: ShardHeader, src: Ref, dst: Ref, written: nat)
    | GetCalled(key: ShardKey, verify: bool, began: nat)
    | GetLoaded(key: ShardKey, verify: bool, began: nat, looked: nat, ref: Ref, seen: StoredShard)
    | GetCopying(key: ShardKey, began: nat, looked: nat, ref: Ref, seen: StoredShard, dst: Ref, copied: nat)
    | GetReturned(key: ShardKey, began: nat, looked: nat, answer: Result<StoredShard>)
    | VerifyReturned(key: ShardKey, began: nat, looked: nat, header: Result<ShardHeader>)

  datatype State = State(
    clock: nat,
    heap: map<Ref, seq<byte>>,
    callers: set<Ref>,
    table: map<ShardKey, Entry>,
    published: set<Ref>,
    stored: set<(ShardKey, StoredShard)>,
    calls: map<Thread, Call>)

  /** One atomic step; anything may come between two steps of a call. */
  datatype Step =
    | NewBuffer(ref: Ref, content: seq<byte>)
    | Scribble(ref: Ref, i: nat, b: byte)
    | Rot(key: ShardKey, ref: Ref, payload: seq<byte>)
    | Delete(key: ShardKey)
    | PutCheck(t: Thread, key: ShardKey, h: ShardHeader, src: Ref)
    | PutAllocate(t: Thread, dst: Ref)
    | PutCopyByte(t: Thread)
    | PutInsert(t: Thread)
    | GetBegin(t: Thread, key: ShardKey, verify: bool)
    | GetLookup(t: Thread)
    | GetHash(t: Thread, dst: Ref)
    | GetCopyByte(t: Thread)
    | GetReturn(t: Thread)
    | VerifyHash(t: Thread)
    | Forget(t: Thread)

  const INITIAL := State(0, map[], {}, map[], {}, {}, map[])

  function CallOf(s: State, t: Thread): Call { if t in s.calls then s.calls[t] else Idle }

  function Payload(s: State, r: Ref): seq<byte> { if r in s.heap then s.heap[r] else [] }

  /** The table as the sequential store it stands for. */
  function Abstract(s: State): StoreState {
    StoreState(map k | k in s.table :: StoredShard(s.table[k].h, Payload(s, s.table[k].ref)), map[])
  }

  predicate Enabled(hash: Hash, s: State, step: Step) {
    match step
    case NewBuffer(ref, _) => ref !in s.heap
    case Scribble(ref, i, _) => ref in s.callers && ref in s.heap && i < |s.heap[ref]|
    case Rot(key, ref, payload) =>
      key in s.table && ref !in s.heap && |payload| == |Payload(s, s.table[key].ref)| && hash(payload) != s.table[key].h.checksum
    case Delete(key) => key in s.table
    case PutCheck(t, key, h, src) => CallOf(s, t).Idle? && src in s.callers && Mismatch(key, h, |Payload(s, src)|).Ok?
    case PutAllocate(t, dst) => CallOf(s, t).PutStamped? && dst !in s.heap
    case PutCopyByte(t) =>
      var call := CallOf(s, t);
      call.PutCopying? && call.written < |Payload(s, call.src)| && call.written < |Payload(s, call.dst)|
    case PutInsert(t) => CallOf(s, t).PutCopying? && CallOf(s, t).written == |Payload(s, CallOf(s, t).src)|
    case GetBegin(t, _, _) => CallOf(s, t).Idle?
    case GetLookup(t) => CallOf(s, t).GetCalled?
    case GetHash(t, dst) => CallOf(s, t).GetLoaded? && !CallOf(s, t).verify && dst !in s.heap
    case GetCopyByte(t) =>
      var call := CallOf(s, t);
      call.GetCopying? && call.copied < |Payload(s, call.ref)| && call.copied < |Payload(s, call.dst)|
    case GetReturn(t) => CallOf(s, t).GetCopying? && CallOf(s, t).copied == |Payload(s, CallOf(s, t).ref)|
    case VerifyHash(t) => CallOf(s, t).GetLoaded? && CallOf(s, t).verify
    case Forget(t) => CallOf(s, t).GetReturned? || CallOf(s, t).VerifyReturned?
  }

  function Zeros(n: nat): seq<byte> { seq(n, _ => ZERO) }

  function WithCall(s: State, t: Thread, call: Call): State { s.(calls := s.calls[t := call]) }

  function WithByte(s: State, r: Ref, i: nat, b: byte): State
    requires r in s.heap && i < |s.heap[r]|
  {
    s.(heap := s.heap[r := s.heap[r][i := b]])
  }

  /** The effect of a step, before the clock moves on. */
  function Effect(hash: Hash, s: State, step: Step): State
    requires Enabled(hash, s, step)
  {
    match step
    case NewBuffer(ref, content) => s.(heap := s.heap[ref := content], callers := s.callers + {ref})
    case Scribble(ref, i, b) => WithByte(s, ref, i, b)
    case Rot(key, ref, payload) =>
      s.(heap := s.heap[ref := payload], table := s.table[key := Entry(s.table[key].h, ref)], published := s.published + {ref})
    case Delete(key) => s.(table := s.table - {key})
    case PutCheck(t, key, h, src) => WithCall(s, t, PutStamped(key, h.(checksum := hash(Payload(s, src))), src))
    case PutAllocate(t, dst) =>
      var call := CallOf(s, t);
      WithCall(s, t, PutCopying(call.key, call.h, call.src, dst, 0)).(heap := s.heap[dst := Zeros(|Payload(s, call.src)|)])
    case PutCopyByte(t) =>
      var call := CallOf(s, t);
      WithCall(WithByte(s, call.dst, call.written, Payload(s, call.src)[call.written]), t, call.(written := call.written + 1))
    case PutInsert(t) =>
      var call := CallOf(s, t);
      WithCall(s, t, Idle).(
        table := s.table[call.key := Entry(call.h, call.dst)],
        published := s.published + {call.dst},
        stored := s.stored + {(call.key, StoredShard(call.h, Payload(s, call.dst)))})
    case GetBegin(t, key, verify) => WithCall(s, t, GetCalled(key, verify, s.clock))
    case GetLookup(t) =>
      var call := CallOf(s, t);
      if call.key !in s.table then
        WithCall(s, t, if call.verify then VerifyReturned(call.key, call.began, s.clock, Err(ShardNotFound))
                       else GetReturned(call.key, call.began, s.clock, Err(ShardNotFound)))
      else
        var e := s.table[call.key];
        WithCall(s, t, GetLoaded(call.key, call.verify, call.began, s.clock, e.ref, StoredShard(e.h, Payload(s, e.ref))))
    case GetHash(t, dst) =>
      var call := CallOf(s, t);
      if hash(Payload(s, call.ref)) != call.seen.h.checksum
      then WithCall(s, t, GetReturned(call.key, call.began, call.looked, Err(CorruptShard(call.seen.h))))
      else
        WithCall(s, t, GetCopying(call.key, call.began, call.looked, call.ref, call.seen, dst, 0)).(
          heap := s.heap[dst := Zeros(|Payload(s, call.ref)|)])
    case GetCopyByte(t) =>
      var call := CallOf(s, t);
      WithCall(WithByte(s, call.dst, call.copied, Payload(s, call.ref)[call.copied]), t, call.(copied := call.copied + 1))
    case GetReturn(t) =>
      var call := CallOf(s, t);
      WithCall(s, t, GetReturned(call.key, call.began, call.looked, Ok(StoredShard(call.seen.h, Payload(s, call.dst))))).(
        callers := s.callers + {call.dst})
    case VerifyHash(t) =>
      var call := CallOf(s, t);
      var passes := hash(Payload(s, call.ref)) == call.seen.h.checksum;
      WithCall(s, t, VerifyReturned(call.key, call.began, call.looked,
                                    if passes then Ok(call.seen.h) else Err(CorruptShard(call.seen.h))))
    case Forget(t) => WithCall(s, t, Idle)
  }

  function Apply(hash: Hash, s: State, step: Step): State
    requires Enabled(hash, s, step)
  {
    Effect(hash, s, step).(clock := s.clock + 1)
  }

  // ----- Invariant

  /** A buffer that a call is still filling. */
  function Private(call: Call): set<Ref> {
    if call.PutCopying? || call.GetCopying? then {call.dst} else {}
  }

  /** Whatever passes its checksum under a key was stored there by a put. */
  ghost predicate Genuine(hash: Hash, s: State, key: ShardKey, shard: StoredShard) {
    hash(shard.data) == shard.h.checksum ==> (key, shard) in s.stored
  }

  ghost predicate CallOk(hash: Hash, s: State, t: Thread) {
    match CallOf(s, t)
    case PutCopying(_, _, _, dst, _) => dst in s.heap && dst !in s.published && dst !in s.callers
    case GetLoaded(key, _, began, looked, ref, seen) =>
      && began <= looked < s.clock && ref in s.published && Payload(s, ref) == seen.data && Genuine(hash, s, key, seen)
    case GetCopying(key, began, looked, ref, seen, dst, copied) =>
      && began <= looked < s.clock && ref in s.published && Payload(s, ref) == seen.data && Genuine(hash, s, key, seen)
      && hash(seen.data) == seen.h.checksum
      && dst in s.heap && dst !in s.published && dst !in s.callers
      && |s.heap[dst]| == |seen.data| && copied <= |seen.data| && s.heap[dst][..copied] == seen.data[..copied]
    case GetCalled(_, _, began) => began < s.clock
    case GetReturned(key, began, looked, answer) =>
      began <= looked < s.clock && (answer.Ok? ==> (key, answer.value) in s.stored)
    case VerifyReturned(key, began, looked, header) =>
      began <= looked < s.clock && (header.Ok? ==> exists shard :: (key, shard) in s.stored && shard.h == header.value)
    case _ => true
  }

  ghost predicate Inv(hash: Hash, s: State) {
    && s.published <= s.heap.Keys && s.callers <= s.heap.Keys && s.published !! s.callers
    && (forall k :: k in s.table ==>
          s.table[k].ref in s.published && Genuine(hash, s, k, StoredShard(s.table[k].h, Payload(s, s.table[k].ref))))
    && (forall t: Thread :: CallOk(hash, s, t))
    && (forall t: Thread, u: Thread :: t != u ==> Private(CallOf(s, t)) !! Private(CallOf(s, u)))
  }

  /** Published buffers and stored pairs are kept, and buffers keep existing. */
  ghost predicate Extends(s: State, r: State) {
    && s.published <= r.published && s.stored <= r.stored && s.clock <= r.clock && s.heap.Keys <= r.heap.Keys
    && (forall b :: b in s.published ==> Payload(r, b) == Payload(s, b))
  }

  /** A call that does not move, and whose private buffer nobody touches, stays in order. */
  lemma OtherCall(hash: Hash, s: State, r: State, t: Thread)
    requires CallOk(hash, s, t) && Extends(s, r) && CallOf(r, t) == CallOf(s, t)
    requires forall b :: b in Private(CallOf(s, t)) ==> b !in r.published && b !in r.callers && Payload(r, b) == Payload(s, b)
    ensures CallOk(hash, r, t)
  {
  }

  /** The thread whose call a step moves, if it moves one. */
  function Mover(step: Step): Result<Thread> {
    match step
    case PutCheck(t, _, _, _) => Ok(t)
    case PutAllocate(t, _) => Ok(t)
    case PutCopyByte(t) => Ok(t)
    case PutInsert(t) => Ok(t)
    case GetBegin(t, _, _) => Ok(t)
    case GetLookup(t) => Ok(t)
    case GetHash(t, _) => Ok(t)
    case GetCopyByte(t) => Ok(t)
    case GetReturn(t) => Ok(t)
    case VerifyHash(t) => Ok(t)
    case Forget(t) => Ok(t)
    case _ => Err(ShardNotFound)
  }

  /** Every step extends the state: in particular no published payload ever changes in place. */
  lemma StepExtends(hash: Hash, s: State, step: Step)
    requires Inv(hash, s) && Enabled(hash, s, step)
    ensures Extends(s, Apply(hash, s, step))
  {
    if Mover(step).Ok? {
      assert CallOk(hash, s, Mover(step).value);
    }
  }

  lemma StepKeepsTable(hash: Hash, s: State, step: Step)
    requires Inv(hash, s) && Enabled(hash, s, step)
    ensures var r := Apply(hash, s, step);
      && r.published <= r.heap.Keys && r.callers <= r.heap.Keys && r.published !! r.callers
      && (forall k :: k in r.table ==>
            r.table[k].ref in r.published && Genuine(hash, r, k, StoredShard(r.table[k].h, Payload(r, r.table[k].ref))))
  {
    if Mover(step).Ok? {
      assert CallOk(hash, s, Mover(step).value);
    }
    StepExtends(hash, s, step);
  }

  lemma StepKeepsMover(hash: Hash, s: State, step: Step)
    requires Inv(hash, s) && Enabled(hash, s, step) && Mover(step).Ok?
    ensures CallOk(hash, Apply(hash, s, step), Mover(step).value)
  {
    var call := CallOf(s, Mover(step).value);
    assert CallOk(hash, s, Mover(step).value);
    if step.GetCopyByte? {
      var r, n := Apply(hash, s, step), call.copied;
      assert r.heap[call.dst][..n + 1] == s.heap[call.dst][..n] + [call.seen.data[n]];
      assert call.seen.data[..n + 1] == call.seen.data[..n] + [call.seen.data[n]];
    } else if step.GetReturn? {
      assert s.heap[call.dst] == s.heap[call.dst][..call.copied] == call.seen.data;
    }
  }

  lemma StepKeepsOthers(hash: Hash, s: State, step: Step, t: Thread)
    requires Inv(hash, s) && Enabled(hash, s, step) && Mover(step) != Ok(t)
    ensures CallOf(Apply(hash, s, step), t) == CallOf(s, t) && CallOk(hash, Apply(hash, s, step), t)
  {
    StepExtends(hash, s, step);
    assert CallOk(hash, s, t);
    if Mover(step).Ok? {
      assert CallOk(hash, s, Mover(step).value);
      assert Private(CallOf(s, t)) !! Private(CallOf(s, Mover(step).value));
    }
    OtherCall(hash, s, Apply(hash, s, step), t);
  }

  lemma StepKeepsPrivate(hash: Hash, s: State, step: Step, t: Thread, u: Thread)
    requires Inv(hash, s) && Enabled(hash, s, step) && t != u
    ensures Private(CallOf(Apply(hash, s, step), t)) !! Private(CallOf(Apply(hash, s, step), u))
  {
    assert CallOk(hash, s, t) && CallOk(hash, s, u);
    assert Private(CallOf(s, t)) !! Private(CallOf(s, u));
  }

  lemma StepKeeps(hash: Hash, s: State, step: Step)
    requires Inv(hash, s) && Enabled(hash, s, step)
    ensures Inv(hash, Apply(hash, s, step))
  {
    hide CallOk, Enabled, Effect, Genuine, Private;
    StepKeepsTable(hash, s, step);
    var r := Apply(hash, s, step);
    forall t: Thread
      ensures CallOk(hash, r, t)
    {
      if Mover(step) == Ok(t) {
        StepKeepsMover(hash, s, step);
      } else {
        StepKeepsOthers(hash, s, step, t);
      }
    }
    forall t: Thread, u: Thread | t != u
      ensures Private(CallOf(r, t)) !! Private(CallOf(r, u))
    {
      StepKeepsPrivate(hash, s, step, t, u);
    }
  }

  // ----- Runs

  /** A history of states, each reached from the one before it by one step. */
  ghost predicate IsTrace(hash: Hash, tr: seq<State>) {
    && |tr| > 0 && tr[0] == INITIAL
    && forall i :: 0 <= i < |tr| - 1 ==> IsStep(hash, tr[i], tr[i + 1])
  }

  ghost predicate IsStep(hash: Hash, s: State, r: State) {
    exists step :: Enabled(hash, s, step) && r == Apply(hash, s, step)
  }

  /** The answer is the sequential one at the moment the call looked up the table, which was during the call. */
  ghost predicate Explained(hash: Hash, tr: seq<State>, call: Call) {
    match call
    case GetLoaded(key, _, began, looked, _, seen) =>
      began <= looked < |tr| && key in Abstract(tr[looked]).shards && Abstract(tr[looked]).shards[key] == seen
    case GetCopying(key, began, looked, _, seen, _, _) =>
      began <= looked < |tr| && key in Abstract(tr[looked]).shards && Abstract(tr[looked]).shards[key] == seen
    case GetReturned(key, began, looked, answer) =>
      began <= looked < |tr| && answer == Lookup(hash, Abstract(tr[looked]), key)
    case VerifyReturned(key, began, looked, header) =>
      began <= looked < |tr| && header == HeaderOnly(Lookup(hash, Abstract(tr[looked]), key))
    case _ => true
  }

  lemma TraceShorter(hash: Hash, tr: seq<State>)
    requires IsTrace(hash, tr) && |tr| > 1
    ensures IsTrace(hash, tr[..|tr| - 1])
    ensures IsStep(hash, tr[|tr| - 2], tr[|tr| - 1])
  {
    hide IsStep;
    var front := tr[..|tr| - 1];
    forall i | 0 <= i < |front| - 1
      ensures IsStep(hash, front[i], front[i + 1])
    {
      assert IsStep(hash, tr[i], tr[i + 1]);
    }
    assert IsStep(hash, tr[|tr| - 2], tr[|tr| - 2 + 1]);
  }

  lemma ExplainedLater(hash: Hash, tr: seq<State>, s: State, call: Call)
    requires Explained(hash, tr, call)
    ensures Explained(hash, tr + [s], call)
  {
  }

  /** The moving call's answer stays explained: what it looks up now, or what it looked up before. */
  lemma MoverExplained(hash: Hash, tr: seq<State>, step: Step)
    requires |tr| > 0
    requires var s := tr[|tr| - 1];
      Inv(hash, s) && s.clock == |tr| - 1 && Enabled(hash, s, step) && Mover(step).Ok?
      && Explained(hash, tr, CallOf(s, Mover(step).value))
    ensures var s := tr[|tr| - 1];
      Explained(hash, tr, CallOf(Apply(hash, s, step), Mover(step).value))
  {
    var s := tr[|tr| - 1];
    assert CallOk(hash, s, Mover(step).value);
    if step.GetReturn? {
      var call := CallOf(s, step.t);
      assert s.heap[call.dst] == s.heap[call.dst][..call.copied] == call.seen.data;
    }
  }

  lemma {:induction false} TraceKeeps(hash: Hash, tr: seq<State>)
    requires IsTrace(hash, tr)
    ensures var s := tr[|tr| - 1];
      Inv(hash, s) && s.clock == |tr| - 1 && forall t: Thread :: Explained(hash, tr, CallOf(s, t))
    decreases |tr|
  {
    if |tr| > 1 {
      hide Inv, Enabled, Effect, Explained, IsTrace, CallOf;
      var front, s, r := tr[..|tr| - 1], tr[|tr| - 2], tr[|tr| - 1];
      TraceShorter(hash, tr);
      TraceKeeps(hash, front);
      var step :| Enabled(hash, s, step) && r == Apply(hash, s, step);
      StepKeeps(hash, s, step);
      assert tr == front + [r];
      forall t: Thread
        ensures Explained(hash, tr, CallOf(r, t))
      {
        if Mover(step) == Ok(t) {
          MoverExplained(hash, front, step);
        } else {
          StepKeepsOthers(hash, s, step, t);
        }
        ExplainedLater(hash, front, r, CallOf(r, t));
      }
    }
  }

  /**
   * In every interleaving, what GetShard returns is what the sequential store answers at one moment of the call, and
   * a shard it returns is one header and payload that some PutShard stored together.
   */
  lemma GetIsAtomic(hash: Hash, tr: seq<State>, t: Thread)
    requires IsTrace(hash, tr) && CallOf(tr[|tr| - 1], t).GetReturned?
    ensures var call := CallOf(tr[|tr| - 1], t);
      && call.began <= call.looked < |tr|
      && call.answer == Lookup(hash, Abstract(tr[call.looked]), call.key)
      && var shards := Abstract(tr[call.looked]).shards;
      && (match call.answer
          case Ok(s) => call.key in shards && s == shards[call.key] && hash(s.data) == s.h.checksum
          case Err(CorruptShard(h)) =>
            call.key in shards && h == shards[call.key].h && hash(shards[call.key].data) != h.checksum
          case Err(e) => e == ShardNotFound && call.key !in shards)
      && (call.answer.Ok? ==> (call.key, call.answer.value) in tr[|tr| - 1].stored)
  {
    TraceKeeps(hash, tr);
    assert CallOk(hash, tr[|tr| - 1], t);
    assert Explained(hash, tr, CallOf(tr[|tr| - 1], t));
  }

  /** Likewise what VerifyShard returns; a header that it returns was stored by some PutShard. */
  lemma VerifyIsAtomic(hash: Hash, tr: seq<State>, t: Thread)
    requires IsTrace(hash, tr) && CallOf(tr[|tr| - 1], t).VerifyReturned?
    ensures var call := CallOf(tr[|tr| - 1], t);
      && call.began <= call.looked < |tr|
      && call.header == HeaderOnly(Lookup(hash, Abstract(tr[call.looked]), call.key))
      && var shards := Abstract(tr[call.looked]).shards;
      && (match call.header
          case Ok(h) => call.key in shards && h == shards[call.key].h && hash(shards[call.key].data) == h.checksum
          case Err(CorruptShard(h)) =>
            call.key in shards && h == shards[call.key].h && hash(shards[call.key].data) != h.checksum
          case Err(e) => e == ShardNotFound && call.key !in shards)
      && (call.header.Ok? ==> exists shard :: (call.key, shard) in tr[|tr| - 1].stored && shard.h == call.header.value)
  {
    TraceKeeps(hash, tr);
    assert CallOk(hash, tr[|tr| - 1], t);
    assert Explained(hash, tr, CallOf(tr[|tr| - 1], t));
  }

  // ----- The machine implements the sequential store

  /**
   * An insertion puts the call's header and copy under the key, a delete and rot do what they do sequentially, and no other
   * step changes the table's meaning.
   */
  lemma StepImplements(hash: Hash, s: State, step: Step)
    requires Inv(hash, s) && Enabled(hash, s, step)
    ensures var before, after := Abstract(s), Abstract(Apply(hash, s, step));
      match step
      case Rot(key, _, payload) => after == WithPayload(before, key, payload)
      case Delete(key) => after == WithoutShard(before, key)
      case PutInsert(t) =>
        var call := CallOf(s, t);
        after == before.(shards := before.shards[call.key := StoredShard(call.h, Payload(s, call.dst))])
      case _ => after == before
  {
    hide Inv, Effect, Enabled, Abstract, Payload, WithPayload, WithoutShard;
    PayloadsStay(hash, s, step);
    match step
    case Rot(_, _, _) => RotImplements(hash, s, step);
    case Delete(_) => DeleteImplements(hash, s, step);
    case PutInsert(_) => InsertImplements(hash, s, step);
    case _ => TableStays(hash, s, step);
  }

  lemma PayloadsStay(hash: Hash, s: State, step: Step)
    requires Inv(hash, s) && Enabled(hash, s, step)
    ensures forall k :: k in s.table ==> Payload(Apply(hash, s, step), s.table[k].ref) == Payload(s, s.table[k].ref)
  {
    hide Effect, Enabled, CallOk, Genuine, Payload;
    StepExtends(hash, s, step);
  }

  lemma TableStays(hash: Hash, s: State, step: Step)
    requires Enabled(hash, s, step) && !step.Rot? && !step.Delete? && !step.PutInsert?
    requires forall k :: k in s.table ==> Payload(Apply(hash, s, step), s.table[k].ref) == Payload(s, s.table[k].ref)
    ensures Abstract(Apply(hash, s, step)) == Abstract(s)
  {
    assert Apply(hash, s, step).table == s.table;
    hide Effect, Enabled;
  }

  lemma RotImplements(hash: Hash, s: State, step: Step)
    requires Enabled(hash, s, step) && step.Rot?
    requires forall k :: k in s.table ==> Payload(Apply(hash, s, step), s.table[k].ref) == Payload(s, s.table[k].ref)
    ensures Abstract(Apply(hash, s, step)) == WithPayload(Abstract(s), step.key, step.payload)
  {
  }

  lemma DeleteImplements(hash: Hash, s: State, step: Step)
    requires Enabled(hash, s, step) && step.Delete?
    requires forall k :: k in s.table ==> Payload(Apply(hash, s, step), s.table[k].ref) == Payload(s, s.table[k].ref)
    ensures Abstract(Apply(hash, s, step)) == WithoutShard(Abstract(s), step.key)
  {
  }

  lemma InsertImplements(hash: Hash, s: State, step: Step)
    requires Enabled(hash, s, step) && step.PutInsert?
    requires forall k :: k in s.table ==> Payload(Apply(hash, s, step), s.table[k].ref) == Payload(s, s.table[k].ref)
    ensures var call, before := CallOf(s, step.t), Abstract(s);
      Abstract(Apply(hash, s, step)) == before.(shards := before.shards[call.key := StoredShard(call.h, Payload(s, call.dst))])
  {
  }

  /** Only a caller writes to a caller's buffer. */
  lemma OnlyCallersWrite(hash: Hash, s: State, step: Step, ref: Ref)
    requires Inv(hash, s) && Enabled(hash, s, step) && ref in s.callers && !(step.Scribble? && step.ref == ref)
    ensures ref in Apply(hash, s, step).callers && Payload(Apply(hash, s, step), ref) == Payload(s, ref)
  {
    if Mover(step).Ok? {
      assert CallOk(hash, s, Mover(step).value);
    }
  }

  /** A put of some bytes that has stamped the header with their checksum and copied a part of them. */
  ghost predicate Putting(hash: Hash, s: State, u: Thread, key: ShardKey, h: ShardHeader, src: Ref, bytes: seq<byte>) {
    match CallOf(s, u)
    case PutStamped(k, stamped, r) => k == key && stamped == h.(checksum := hash(bytes)) && r == src
    case PutCopying(k, stamped, r, dst, written) =>
      && k == key && stamped == h.(checksum := hash(bytes)) && r == src
      && dst in s.heap && |s.heap[dst]| == |bytes| && written <= |bytes| && s.heap[dst][..written] == bytes[..written]
    case _ => false
  }

  lemma PutGoesOn(
    hash: Hash, s: State, step: Step, u: Thread, key: ShardKey, h: ShardHeader, src: Ref, bytes: seq<byte>)
    requires Inv(hash, s) && Enabled(hash, s, step) && step != PutInsert(u)
    requires Putting(hash, s, u, key, h, src, bytes) && Payload(s, src) == bytes
    ensures Putting(hash, Apply(hash, s, step), u, key, h, src, bytes)
  {
    var call, r := CallOf(s, u), Apply(hash, s, step);
    assert CallOk(hash, s, u);
    if Mover(step) != Ok(u) {
      PrivateStays(hash, s, step, u);
    } else if step.PutCopyByte? {
      var n := call.written;
      assert r.heap[call.dst][..n + 1] == s.heap[call.dst][..n] + [bytes[n]];
      assert bytes[..n + 1] == bytes[..n] + [bytes[n]];
    }
  }

  /** Nobody else touches a call or the buffer it is filling. */
  lemma PrivateStays(hash: Hash, s: State, step: Step, u: Thread)
    requires Inv(hash, s) && Enabled(hash, s, step) && Mover(step) != Ok(u)
    ensures var r := Apply(hash, s, step);
      && CallOf(r, u) == CallOf(s, u)
      && forall b :: b in Private(CallOf(s, u)) ==> b in r.heap && Payload(r, b) == Payload(s, b)
  {
    assert CallOk(hash, s, u);
    if Mover(step).Ok? {
      assert CallOk(hash, s, Mover(step).value);
      assert Private(CallOf(s, u)) !! Private(CallOf(s, Mover(step).value));
    }
  }

  /** A history together with the steps that made it. */
  ghost predicate Follows(hash: Hash, tr: seq<State>, steps: seq<Step>) {
    && |tr| == |steps| + 1 && tr[0] == INITIAL
    && forall i :: 0 <= i < |steps| ==> Enabled(hash, tr[i], steps[i]) && tr[i + 1] == Apply(hash, tr[i], steps[i])
  }

  lemma FollowsTrace(hash: Hash, tr: seq<State>, steps: seq<Step>, n: nat)
    requires Follows(hash, tr, steps) && n < |tr|
    ensures IsTrace(hash, tr[..n + 1]) && Inv(hash, tr[n])
  {
    hide Inv, Enabled, Effect;
    var front := tr[..n + 1];
    forall i | 0 <= i < |front| - 1
      ensures IsStep(hash, front[i], front[i + 1])
    {
      assert Enabled(hash, tr[i], steps[i]) && front[i + 1] == tr[i + 1];
    }
    TraceKeeps(hash, front);
  }

  /** Between its check and its insertion a put keeps at the bytes it was given, if the caller does not write to them. */
  ghost predicate LeftAlone(steps: seq<Step>, q: nat, p: nat, u: Thread, src: Ref) {
    forall i :: q < i < p && i < |steps| ==> steps[i] != PutInsert(u) && !(steps[i].Scribble? && steps[i].ref == src)
  }

  lemma {:induction false} PutIsUnderWay(
    hash: Hash, tr: seq<State>, steps: seq<Step>, q: nat, n: nat, u: Thread, key: ShardKey, h: ShardHeader, src: Ref)
    requires Follows(hash, tr, steps) && q < n <= |steps| && steps[q] == PutCheck(u, key, h, src) && LeftAlone(steps, q, n, u, src)
    ensures src in tr[n].callers && Payload(tr[n], src) == Payload(tr[q], src)
    ensures Putting(hash, tr[n], u, key, h, src, Payload(tr[q], src))
    decreases n
  {
    FollowsTrace(hash, tr, steps, n - 1);
    if n == q + 1 {
      OnlyCallersWrite(hash, tr[q], steps[q], src);
    } else {
      hide Inv, Enabled, Effect, Putting;
      PutIsUnderWay(hash, tr, steps, q, n - 1, u, key, h, src);
      OnlyCallersWrite(hash, tr[n - 1], steps[n - 1], src);
      PutGoesOn(hash, tr[n - 1], steps[n - 1], u, key, h, src, Payload(tr[q], src));
    }
  }

  /** A put whose caller leaves the buffer alone does to the table what a sequential put of the given bytes does. */
  lemma PutStores(
    hash: Hash, tr: seq<State>, steps: seq<Step>, q: nat, p: nat, u: Thread, key: ShardKey, h: ShardHeader, src: Ref)
    requires Follows(hash, tr, steps) && q < p < |steps| && LeftAlone(steps, q, p, u, src)
    requires steps[q] == PutCheck(u, key, h, src) && steps[p] == PutInsert(u)
    ensures var bytes := Payload(tr[q], src);
      && key.objectID == h.objectID && |bytes| == h.dataLen
      && Abstract(tr[p + 1]) == WithShard(hash, Abstract(tr[p]), key, h, bytes)
      && key in Abstract(tr[p + 1]).shards
      && Abstract(tr[p + 1]).shards[key] == StoredShard(h.(checksum := hash(bytes)), bytes)
  {
    var bytes := Payload(tr[q], src);
    PutIsUnderWay(hash, tr, steps, q, p, u, key, h, src);
    FollowsTrace(hash, tr, steps, p);
    StepImplements(hash, tr[p], steps[p]);
    assert Enabled(hash, tr[q], steps[q]) && Enabled(hash, tr[p], steps[p]);
    var call := CallOf(tr[p], u);
    assert tr[p].heap[call.dst] == tr[p].heap[call.dst][..call.written];
    assert bytes == bytes[..call.written];
  }

  /** A get, or a verification, of a key that began at some moment. */
  ghost predicate Getting(call: Call, key: ShardKey, verify: bool, began: nat) {
    match call
    case GetCalled(k, v, b) => k == key && v == verify && b == began
    case GetLoaded(k, v, b, _, _, _) => k == key && v == verify && b == began
    case GetCopying(k, b, _, _, _, _, _) => k == key && !verify && b == began
    case GetReturned(k, b, _, _) => k == key && !verify && b == began
    case VerifyReturned(k, b, _, _) => k == key && verify && b == began
    case _ => false
  }

  lemma GetGoesOn(hash: Hash, s: State, step: Step, t: Thread, key: ShardKey, verify: bool, began: nat)
    requires Enabled(hash, s, step) && step != Forget(t) && Getting(CallOf(s, t), key, verify, began)
    ensures Getting(CallOf(Apply(hash, s, step), t), key, verify, began)
  {
  }

  /** Until it is forgotten, a call answers for the key it was made with, and from the moment it was made. */
  lemma {:induction false} GetIsAsked(
    hash: Hash, tr: seq<State>, steps: seq<Step>, b: nat, n: nat, t: Thread, key: ShardKey, verify: bool)
    requires Follows(hash, tr, steps) && b < n <= |steps| && steps[b] == GetBegin(t, key, verify)
    requires forall i :: b < i < n ==> steps[i] != Forget(t)
    ensures Getting(CallOf(tr[n], t), key, verify, b)
    decreases n
  {
    hide Inv, Effect;
    if n == b + 1 {
      FollowsTrace(hash, tr, steps, b);
      ClockIs(hash, tr[..b + 1]);
      GetBegins(hash, tr[b], t, key, verify);
      assert Enabled(hash, tr[b], steps[b]) && tr[b + 1] == Apply(hash, tr[b], steps[b]);
    } else {
      GetIsAsked(hash, tr, steps, b, n - 1, t, key, verify);
      assert Enabled(hash, tr[n - 1], steps[n - 1]) && tr[n - 1 + 1] == Apply(hash, tr[n - 1], steps[n - 1]);
      GetGoesOn(hash, tr[n - 1], steps[n - 1], t, key, verify, b);
    }
  }

  lemma ClockIs(hash: Hash, tr: seq<State>)
    requires IsTrace(hash, tr)
    ensures tr[|tr| - 1].clock == |tr| - 1
  {
    TraceKeeps(hash, tr);
  }

  lemma GetBegins(hash: Hash, s: State, t: Thread, key: ShardKey, verify: bool)
    requires Enabled(hash, s, GetBegin(t, key, verify))
    ensures Getting(CallOf(Apply(hash, s, GetBegin(t, key, verify)), t), key, verify, s.clock)
  {
  }

  /** A step that changes what the table holds under a key. */
  predicate Touches(s: State, step: Step, key: ShardKey) {
    match step
    case Rot(k, _, _) => k == key
    case Delete(k) => k == key
    case PutInsert(t) =>
      var call := CallOf(s, t);
      call.PutCopying? && call.key == key
    case _ => false
  }

  lemma {:induction false} UntouchedStays(hash: Hash, tr: seq<State>, steps: seq<Step>, a: nat, b: nat, key: ShardKey)
    requires Follows(hash, tr, steps) && a <= b < |tr|
    requires forall i :: a <= i < b ==> !Touches(tr[i], steps[i], key)
    ensures key in Abstract(tr[a]).shards <==> key in Abstract(tr[b]).shards
    ensures key in Abstract(tr[a]).shards ==> Abstract(tr[b]).shards[key] == Abstract(tr[a]).shards[key]
    decreases b
  {
    hide Inv, Effect, Abstract;
    if a < b {
      UntouchedStays(hash, tr, steps, a, b - 1, key);
      FollowsTrace(hash, tr, steps, b - 1);
      StepImplements(hash, tr[b - 1], steps[b - 1]);
      assert !Touches(tr[b - 1], steps[b - 1], key);
    }
  }

  /**
   * A get that looks up the table after a put of the key, with no other put, delete or rot of it in between, returns the
   * header of that put, with the checksum, and exactly the bytes that its caller gave.
   */
  lemma PutIsSeen(
    hash: Hash, tr: seq<State>, steps: seq<Step>, q: nat, p: nat, u: Thread, key: ShardKey, h: ShardHeader, src: Ref, t: Thread)
    requires Follows(hash, tr, steps) && q < p < |steps| && LeftAlone(steps, q, p, u, src)
    requires steps[q] == PutCheck(u, key, h, src) && steps[p] == PutInsert(u)
    requires var call := CallOf(tr[|tr| - 1], t);
      && call.GetReturned? && call.key == key && p < call.looked < |tr|
      && forall i :: p < i < call.looked ==> !Touches(tr[i], steps[i], key)
    ensures var bytes := Payload(tr[q], src);
      CallOf(tr[|tr| - 1], t).answer == Ok(StoredShard(h.(checksum := hash(bytes)), bytes))
  {
    hide Follows, Abstract, Putting, LeftAlone, Touches, Inv, Enabled, Effect, IsTrace;
    PutStores(hash, tr, steps, q, p, u, key, h, src);
    LengthsFollow(hash, tr, steps);
    FollowsTrace(hash, tr, steps, |tr| - 1);
    assert tr[..|tr| - 1 + 1] == tr;
    UntouchedStays(hash, tr, steps, p + 1, CallOf(tr[|tr| - 1], t).looked, key);
    AnswerIs(hash, tr, t, StoredShard(h.(checksum := hash(Payload(tr[q], src))), Payload(tr[q], src)));
  }

  lemma AnswerIs(hash: Hash, tr: seq<State>, t: Thread, shard: StoredShard)
    requires IsTrace(hash, tr) && CallOf(tr[|tr| - 1], t).GetReturned? && hash(shard.data) == shard.h.checksum
    requires var call := CallOf(tr[|tr| - 1], t);
      call.looked < |tr| && call.key in Abstract(tr[call.looked]).shards && Abstract(tr[call.looked]).shards[call.key] == shard
    ensures CallOf(tr[|tr| - 1], t).answer == Ok(shard)
  {
    hide IsTrace, Abstract;
    GetIsAtomic(hash, tr, t);
  }

  lemma LengthsFollow(hash: Hash, tr: seq<State>, steps: seq<Step>)
    requires Follows(hash, tr, steps)
    ensures |tr| == |steps| + 1
  {
  }
}
