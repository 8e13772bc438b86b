/** Reading an object while faults go on: between any two calls of Read more of its shards may be lost or rot. */
module Streaming {
  import opened Bytes
  import opened Types
  import opened ReedSolomon
  import opened StoreModel
  import opened ObjectModel
  import opened Placement
  import opened Recovery
  import opened Reading
  import opened Durability

  /** The reader is within the first total stripes, and what it has buffered is the stripe it is in, as it was put. */
  ghost predicate Holding(data: seq<byte>, size: nat, total: u32, at: Cursor) {
    at.Valid() && at.stripe <= total && (at.buf != [] ==> at.stripe < total && at.buf == Cut(data, size, at.stripe))
  }

  /** All that a reader of the data has handed out when it stands at a cursor. */
  function HandedOut(data: seq<byte>, size: nat, at: Cursor): seq<byte>
    requires at.Valid()
  {
    Prefix(data, size, at.stripe) + at.buf[..at.off]
  }

  ghost predicate AllEroded(c: Config, calls: seq<Call>, id: ObjectID, data: seq<byte>)
    requires Fits(c, data)
  {
    forall i :: 0 <= i < |calls| ==> Eroded(c, calls[i].st, id, data)
  }

  // ----- One call

  lemma HandOutHolds(c: Config, data: seq<byte>, total: u32, at: Cursor, n: nat)
    requires Fits(c, data) && total <= StripeCount(|data|, c.stripeSize) && Holding(data, c.stripeSize, total, at) && at.buf != []
    ensures var step := HandOut(at, n);
      && Holding(data, c.stripeSize, total, step.next)
      && HandedOut(data, c.stripeSize, step.next) == HandedOut(data, c.stripeSize, at) + step.out
      && |step.out| <= n && (n > 0 ==> |step.out| > 0)
  {
    hide Prefix, Cut, StripeCount;
    NoWrap(at.stripe + 1);
    PrefixGrows(data, c.stripeSize, at.stripe);
    var step := HandOut(at, n);
    assert at.buf[..at.off] + step.out == at.buf[..at.off + |step.out|];
    assert at.buf[..|at.buf|] == at.buf;
  }

  /**
   * One call, whatever the store has suffered since the last: it fails exactly when it has to load a stripe that cannot
   * be recovered at that moment, ends exactly after the last stripe, and otherwise hands out the next bytes.
   */
  lemma StepOfEroded(c: Config, d: Config, st: StoreState, id: ObjectID, data: seq<byte>, total: u32, at: Cursor, n: nat)
    requires Suits(d, c) && Fits(c, data) && Eroded(c, st, id, data) && total <= StripeCount(|data|, c.stripeSize)
    requires Holding(data, c.stripeSize, total, at)
    ensures var step := ReadStep(d, st, id, total, at, n);
      && Holding(data, c.stripeSize, total, step.next)
      && HandedOut(data, c.stripeSize, step.next) == HandedOut(data, c.stripeSize, at) + step.out
      && step.status == (if at.stripe == total then Eof
                         else if at.buf == [] && !Recoverable(d, st, id, at.stripe) then Failed(Unrecoverable) else More)
      && (step.status == More ==> |step.out| <= n && (n > 0 ==> |step.out| > 0))
      && (step.status != More ==> step.next == at && step.out == [])
  {
    hide Prefix, Cut, StripeCount, StripeRead, Recoverable, Eroded, StripeEroded, HandOut;
    if at.stripe < total && at.buf != [] {
      HandOutHolds(c, data, total, at, n);
    } else if at.stripe < total {
      var stripe := Cut(data, c.stripeSize, at.stripe);
      CutLength(data, c.stripeSize, at.stripe);
      ErodedStripe(c, st, id, data, at.stripe);
      StripeReadsBack(c, d, st, id, at.stripe, stripe);
      if Recoverable(d, st, id, at.stripe) {
        HandOutHolds(c, data, total, Cursor(at.stripe, stripe, 0), n);
      }
    }
  }

  // ----- Many calls

  /**
   * However the object erodes between the calls: what has been handed out is the data up to the cursor; the stream ends
   * only after the last stripe, and fails only at a stripe that could not be recovered when the failing call was made.
   */
  lemma {:induction false} DrainOfEroded(
    c: Config, d: Config, id: ObjectID, data: seq<byte>, total: u32, at: Cursor, calls: seq<Call>)
    requires Suits(d, c) && Fits(c, data) && AllEroded(c, calls, id, data) && total <= StripeCount(|data|, c.stripeSize)
    requires Holding(data, c.stripeSize, total, at)
    ensures var end := Drain(d, id, total, at, calls);
      && Holding(data, c.stripeSize, total, end.next)
      && HandedOut(data, c.stripeSize, end.next) == HandedOut(data, c.stripeSize, at) + end.out
      && match end.status
         case More => end.made == |calls| && (AllPositive(calls) ==> |end.out| >= |calls|)
         case Eof => end.next.stripe == total
         case Failed(e) =>
           && e == Unrecoverable && end.next.stripe < total && end.next.buf == []
           && 0 < end.made && !Recoverable(d, calls[end.made - 1].st, id, end.next.stripe)
    decreases |calls|
  {
    hide ReadStep, HandedOut, Eroded, Recoverable, StripeCount;
    if |calls| > 0 {
      StepOfEroded(c, d, calls[0].st, id, data, total, at, calls[0].n);
      var first := ReadStep(d, calls[0].st, id, total, at, calls[0].n);
      if first.status == More {
        DrainOfEroded(c, d, id, data, total, first.next, calls[1..]);
      } else {
        assert first.next == at;
      }
    }
  }

  lemma HandedOutBound(data: seq<byte>, size: nat, total: u32, at: Cursor)
    requires size > 0 && total <= StripeCount(|data|, size) && Holding(data, size, total, at)
    ensures HandedOut(data, size, at) <= Prefix(data, size, total)
    ensures at.stripe == total ==> HandedOut(data, size, at) == Prefix(data, size, total)
  {
    hide StripeCount, Offset;
    OffsetMonotone(at.stripe, total, size);
    if at.buf != [] {
      PrefixGrows(data, size, at.stripe);
      OffsetMonotone(at.stripe + 1, total, size);
      var more := Prefix(data, size, at.stripe + 1);
      assert HandedOut(data, size, at) <= more <= Prefix(data, size, total);
    }
  }

  ghost predicate AlwaysRecoverable(c: Config, calls: seq<Call>, id: ObjectID, total: u32)
    requires c.Valid()
  {
    forall i :: 0 <= i < |calls| ==> AllRecoverable(c, calls[i].st, id, 0, total)
  }

  /**
   * A reader of the first stripes of some data only ever hands out a prefix of them. The stream ends only when that is all
   * of them; it fails only after exactly the stripes before one that could not be recovered at that moment; with enough
   * real buffers it does one or the other, and not the latter if every stripe can be recovered all the time.
   */
  ghost predicate Delivers(c: Config, d: Config, id: ObjectID, data: seq<byte>, total: u32, calls: seq<Call>)
    requires Reads(d, c) && Fits(c, data)
  {
    var end, size := Drain(d, id, total, START, calls), c.stripeSize;
    && end.out <= Prefix(data, size, total) <= data
    && (end.status == Eof ==> end.out == Prefix(data, size, total))
    && (end.status.Failed? ==>
          && end.status.error == Unrecoverable && end.next.stripe < total && 0 < end.made
          && !Recoverable(d, calls[end.made - 1].st, id, end.next.stripe)
          && end.out == Prefix(data, size, end.next.stripe))
    && (AllPositive(calls) && |calls| > |Prefix(data, size, total)| ==> end.status != More)
    && (AlwaysRecoverable(d, calls, id, total) ==> !end.status.Failed?)
  }

  /** So it is however the object erodes between the calls. */
  lemma StreamsThroughFaults(c: Config, d: Config, id: ObjectID, data: seq<byte>, total: u32, calls: seq<Call>)
    requires Suits(d, c) && Fits(c, data) && AllEroded(c, calls, id, data) && total <= StripeCount(|data|, c.stripeSize)
    ensures Delivers(c, d, id, data, total, calls)
  {
    hide Eroded, Recoverable, StripeCount, Drain, Prefix, Cut;
    var end, size := Drain(d, id, total, START, calls), c.stripeSize;
    PrefixWhole(data, size);
    PrefixIsPart(data, size, total);
    DrainOfEroded(c, d, id, data, total, START, calls);
    HandedOutBound(data, size, total, end.next);
    assert HandedOut(data, size, START) == [];
  }
}
