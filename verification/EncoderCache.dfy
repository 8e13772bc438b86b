/** The shared encoder cache as a state machine: each load and each load-or-store is one atomic step. */
module EncoderCache {
  import opened Types

  type Caller = nat
  type EncoderId = nat

  /** Where a call of EncoderFor stands. */
  datatype Call =
    | Refused(p: Params)
    | Looking(p: Params)
    | Built(p: Params, mine: EncoderId)
    | Finished(p: Params, got: EncoderId)

  /** The cache, the parameters of every encoder ever made, and the calls begun so far. */
  datatype State = State(cache: map<Params, EncoderId>, made: map<EncoderId, Params>, calls: map<Caller, Call>)

  datatype Step =
    | Begin(t: Caller, p: Params)
    | Hit(t: Caller)
    | Miss(t: Caller, e: EncoderId)
    | LoadOrStore(t: Caller)

  const INITIAL := State(map[], map[], map[])

  predicate Enabled(s: State, step: Step) {
    match step
    case Begin(t, p) => t !in s.calls
    case Hit(t) => t in s.calls && s.calls[t].Looking? && s.calls[t].p in s.cache
    case Miss(t, e) => t in s.calls && s.calls[t].Looking? && s.calls[t].p !in s.cache && e !in s.made
    case LoadOrStore(t) => t in s.calls && s.calls[t].Built?
  }

  function Apply(s: State, step: Step): State
    requires Enabled(s, step)
  {
    match step
    case Begin(t, p) => s.(calls := s.calls[t := if p.Valid() then Looking(p) else Refused(p)])
    case Hit(t) => var p := s.calls[t].p; s.(calls := s.calls[t := Finished(p, s.cache[p])])
    case Miss(t, e) => var p := s.calls[t].p; s.(made := s.made[e := p], calls := s.calls[t := Built(p, e)])
    case LoadOrStore(t) =>
      var Built(p, e) := s.calls[t];
      if p in s.cache then s.(calls := s.calls[t := Finished(p, s.cache[p])])
      else s.(cache := s.cache[p := e], calls := s.calls[t := Finished(p, e)])
  }

  function After(s: State, steps: seq<Step>): State
    requires AllEnabled(s, steps)
    decreases |steps|
  {
    if |steps| == 0 then s else After(Apply(s, steps[0]), steps[1..])
  }

  predicate AllEnabled(s: State, steps: seq<Step>)
    decreases |steps|
  {
    |steps| == 0 || (Enabled(s, steps[0]) && AllEnabled(Apply(s, steps[0]), steps[1..]))
  }

  /** Cached encoders have their key's parameters; a finished call holds the cached encoder. */
  ghost predicate Inv(s: State) {
    && (forall p :: p in s.cache ==> p.Valid() && s.cache[p] in s.made && s.made[s.cache[p]] == p)
    && (forall t :: t in s.calls ==>
          match s.calls[t]
          case Refused(p) => !p.Valid()
          case Looking(p) => p.Valid()
          case Built(p, e) => p.Valid() && e in s.made && s.made[e] == p
          case Finished(p, e) => p in s.cache && s.cache[p] == e)
  }

  lemma StepKeeps(s: State, step: Step)
    requires Inv(s) && Enabled(s, step)
    ensures Inv(Apply(s, step))
    ensures forall p :: p in s.cache ==> p in Apply(s, step).cache && Apply(s, step).cache[p] == s.cache[p]
    ensures forall e :: e in s.made ==> e in Apply(s, step).made && Apply(s, step).made[e] == s.made[e]
  {
  }

  /** In every interleaving the invariant holds, and nothing cached is ever replaced. */
  lemma {:induction false} RunKeeps(s: State, steps: seq<Step>)
    requires Inv(s) && AllEnabled(s, steps)
    ensures Inv(After(s, steps))
    ensures forall p :: p in s.cache ==> p in After(s, steps).cache && After(s, steps).cache[p] == s.cache[p]
    decreases |steps|
  {
    hide Inv, Apply, Enabled;
    if |steps| > 0 {
      StepKeeps(s, steps[0]);
      RunKeeps(Apply(s, steps[0]), steps[1..]);
    }
  }

  /** A call stays one for its parameters, is refused exactly when they are invalid, and gets an encoder made for them. */
  lemma {:induction false} AskedIsServed(s: State, steps: seq<Step>, t: Caller, p: Params)
    requires Inv(s) && AllEnabled(s, steps) && t in s.calls && s.calls[t].p == p
    ensures var r := After(s, steps);
      && t in r.calls && r.calls[t].p == p && (r.calls[t].Refused? <==> !p.Valid())
      && (r.calls[t].Finished? ==> r.calls[t].got in r.made && r.made[r.calls[t].got] == p)
    decreases |steps|
  {
    if |steps| > 0 {
      hide Inv;
      StepKeeps(s, steps[0]);
      AskedIsServed(Apply(s, steps[0]), steps[1..], t, p);
    }
  }

  /** From its first step on, a call of EncoderFor is for the parameters it was made with. */
  lemma AskedFirst(s: State, steps: seq<Step>, t: Caller, p: Params)
    requires Inv(s) && Enabled(s, Begin(t, p)) && AllEnabled(Apply(s, Begin(t, p)), steps)
    ensures var r := After(Apply(s, Begin(t, p)), steps);
      && t in r.calls && r.calls[t].p == p && (r.calls[t].Refused? <==> !p.Valid())
      && (r.calls[t].Finished? ==> r.calls[t].got in r.made && r.made[r.calls[t].got] == p)
  {
    StepKeeps(s, Begin(t, p));
    AskedIsServed(Apply(s, Begin(t, p)), steps, t, p);
  }

  /**
   * Whatever the interleaving and however far apart in time, calls that finish with equal parameters got one and the
   * same encoder, made for those parameters; only valid parameters finish.
   */
  lemma OneEncoderPerParams(early: seq<Step>, late: seq<Step>, t: Caller, u: Caller)
    requires AllEnabled(INITIAL, early) && AllEnabled(After(INITIAL, early), late)
    requires var s, r := After(INITIAL, early), After(After(INITIAL, early), late);
      && t in s.calls && s.calls[t].Finished? && u in r.calls && r.calls[u].Finished?
      && s.calls[t].p == r.calls[u].p
    ensures var s, r := After(INITIAL, early), After(After(INITIAL, early), late);
      && s.calls[t].got == r.calls[u].got
      && s.calls[t].p.Valid()
      && r.calls[u].got in r.made && r.made[r.calls[u].got] == r.calls[u].p
  {
    hide After, AllEnabled;
    RunKeeps(INITIAL, early);
    RunKeeps(After(INITIAL, early), late);
  }
}
