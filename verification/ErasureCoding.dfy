/** The stripe codec of internal/ec: encode, reconstruct in place, join. */
module ErasureCoding {
  import opened Bytes
  import opened Polynomial
  import opened Types
  import opened ReedSolomon

  /** A window into an array, as a Go slice is. */
  datatype Slice = Slice(a: array<byte>, lo: nat, hi: nat) {
    ghost predicate Valid() { lo <= hi <= a.Length }

    function Length(): nat
      requires lo <= hi
    {
      hi - lo
    }

    ghost function View(): (s: seq<byte>)
      requires Valid()
      reads a
      ensures |s| == Length()
    {
      a[lo..hi]
    }
  }

  /** What reconstruction makes of the given shards; lost shards are empty. */
  function Reconstructed(shards: seq<seq<byte>>, p: Params): Result<seq<seq<byte>>>
    requires p.Valid() && |shards| == p.ShardCount()
  {
    var js := Present(shards, |shards|);
    if |js| == 0 then Ok(shards)
    else
      var size := |shards[js[0]]|;
      if exists j :: 0 <= j < |shards| && |shards[j]| != 0 && |shards[j]| != size then Err(ShardSize)
      else if |js| == |shards| then Ok(shards)
      else if |js| < p.dataShards then Err(TooFewShards)
      else Ok(Completed(shards, js[..p.dataShards], size))
  }

  /** Every lost shard filled in from the shards listed in js. */
  function Completed(shards: seq<seq<byte>>, js: seq<nat>, size: nat): (r: seq<seq<byte>>)
    requires forall i :: 0 <= i < |js| ==> js[i] < |shards| && |shards[js[i]]| == size
    ensures |r| == |shards|
  {
    seq(|shards|, j requires 0 <= j < |shards| =>
      if |shards[j]| > 0 then shards[j] else Rebuild(shards, js, size, j))
  }

  /** The first size bytes of the data shards laid end to end. */
  function Joined(shards: seq<seq<byte>>, p: Params, size: nat): Result<seq<byte>>
    requires p.Valid() && |shards| == p.ShardCount()
  {
    var whole := Flatten(shards[..p.dataShards]);
    if |whole| < size then Err(ShortData) else Ok(whole[..size])
  }

  function Masked(shards: seq<seq<byte>>, present: seq<bool>): (r: seq<seq<byte>>)
    requires |shards| == |present|
    ensures |r| == |shards|
  {
    seq(|shards|, j requires 0 <= j < |shards| => if present[j] then shards[j] else [])
  }

  // ----- Any k of the k+m shards give the stripe back

  /**
   * The stripe was cut in k, and the decoder takes its own number of data shards, no fewer than k. With at least that
   * many survivors reconstruction completes every shard and joining gives the stripe; with fewer it fails, except that
   * with none at all it succeeds and restores nothing.
   */
  lemma AnyKSuffice(stripe: seq<byte>, k: nat, p: Params, shards: seq<seq<byte>>)
    requires p.Valid() && 1 <= k <= p.dataShards
    requires |stripe| > 0 && |shards| == p.ShardCount() && Survivors(stripe, k, shards)
    ensures var full := Shards(stripe, k, p.ShardCount());
      && (|Present(shards, |shards|)| >= p.dataShards ==>
            Reconstructed(shards, p) == Ok(full) && Joined(full, p, |stripe|) == Ok(stripe))
      && (|Present(shards, |shards|)| == |shards| ==> shards == full)
    ensures 0 < |Present(shards, |shards|)| < p.dataShards ==> Reconstructed(shards, p) == Err(TooFewShards)
    ensures |Present(shards, |shards|)| == 0 ==> Reconstructed(shards, p) == Ok(shards)
  {
    hide Rebuild, Shard, SplitSize, Present, Flatten;
    PresentIncreasing(shards, |shards|);
    var js, size := Present(shards, |shards|), SplitSize(|stripe|, k);
    var full := Shards(stripe, k, p.ShardCount());
    SplitSizeCovers(|stripe|, k);
    JoinEncoded(stripe, k, full[..p.dataShards]);
    if |js| == |shards| {
      forall j | 0 <= j < |shards|
        ensures shards[j] == full[j]
      {
        PresentAll(shards, |shards|, j);
      }
      assert shards == full;
    } else if |js| >= p.dataShards {
      var r := Completed(shards, js[..p.dataShards], size);
      forall j | 0 <= j < |shards|
        ensures r[j] == full[j]
      {
        AnyKRebuild(stripe, k, shards, js[..p.dataShards], j);
      }
      assert r == full;
    }
  }

  /** The shards that a mask loses. */
  function Lost(present: seq<bool>): set<nat> { set j | 0 <= j < |present| && !present[j] }

  /** Encode in k+m, lose any m or fewer, reconstruct, join: the stripe comes back, for every length and scheme. */
  lemma FaultMatrix(stripe: seq<byte>, p: Params, present: seq<bool>)
    requires p.Valid() && |present| == p.dataShards + p.parityShards && |Lost(present)| <= p.parityShards
    ensures var r := Reconstructed(Masked(EncodeStripe(stripe, p), present), p);
      r == Ok(EncodeStripe(stripe, p)) && Joined(r.value, p, |stripe|) == Ok(stripe)
  {
    hide Reconstructed, Shard, SplitSize, Flatten, Lost;
    var shards := Masked(EncodeStripe(stripe, p), present);
    CountLost(present);
    JoinEncoded(stripe, p.dataShards, EncodeStripe(stripe, p)[..p.dataShards]);
    SplitSizeCovers(|stripe|, p.dataShards);
    if |stripe| == 0 {
      NothingPresent(shards, |shards|);
      NothingToReconstruct(shards, p);
      assert shards == EncodeStripe(stripe, p);
    } else {
      PresentWhereMarked(stripe, p, present, |present|);
      assert present[..|present|] == present;
      AnyKSuffice(stripe, p.dataShards, p, shards);
    }
  }

  function TrueCount(present: seq<bool>): nat {
    if |present| == 0 then 0
    else TrueCount(present[..|present| - 1]) + if present[|present| - 1] then 1 else 0
  }

  lemma {:induction false} CountLost(present: seq<bool>)
    ensures TrueCount(present) + |Lost(present)| == |present|
  {
    if |present| == 0 {
      assert Lost(present) == {};
    } else {
      var n := |present| - 1;
      CountLost(present[..n]);
      assert Lost(present) == Lost(present[..n]) + if present[n] then {} else {n};
    }
  }

  lemma {:induction false} PresentWhereMarked(stripe: seq<byte>, p: Params, present: seq<bool>, n: nat)
    requires p.Valid() && |present| == p.ShardCount() && |stripe| > 0 && n <= |present|
    ensures |Present(Masked(EncodeStripe(stripe, p), present), n)| == TrueCount(present[..n])
  {
    hide Shard, SplitSize;
    if n > 0 {
      PresentWhereMarked(stripe, p, present, n - 1);
      SplitSizeCovers(|stripe|, p.dataShards);
      assert present[..n][..n - 1] == present[..n - 1];
    }
  }

  lemma {:induction false} NothingPresent(shards: seq<seq<byte>>, n: nat)
    requires n <= |shards| && forall j :: 0 <= j < |shards| ==> |shards[j]| == 0
    ensures Present(shards, n) == []
  {
    if n > 0 {
      NothingPresent(shards, n - 1);
    }
  }

  lemma NothingToReconstruct(shards: seq<seq<byte>>, p: Params)
    requires p.Valid() && |shards| == p.ShardCount() && Present(shards, |shards|) == []
    ensures Reconstructed(shards, p) == Ok(shards)
  {
  }

  // ----- The encoder

  /** Shard j is the window of the stripe that it covers, if it covers one fully. */
  ghost predicate IsWindow(s: Slice, stripe: Slice, j: nat, size: nat) {
    0 < Offset(j + 1, size) <= stripe.hi - stripe.lo ==>
      s == Slice(stripe.a, stripe.lo + Offset(j, size), stripe.lo + Offset(j + 1, size))
  }

  datatype Encoder = Encoder(parm: Params) {
    ghost predicate Valid() { parm.Valid() }

    /**
     * Splits a stripe into k+m shards. Shards that the buffer has room for are windows into it: those that the stripe
     * fills, and the padded and parity shards for which there is spare capacity behind the stripe, which is overwritten.
     */
    method Encode(stripe: Slice) returns (shards: seq<Slice>)
      requires Valid() && stripe.Valid()
      modifies stripe.a
      ensures stripe.a[..stripe.hi] == old(stripe.a[..stripe.hi])
      ensures |shards| == parm.dataShards + parm.parityShards
      ensures forall j :: 0 <= j < |shards| ==>
        && shards[j].Valid()
        && (shards[j].a == stripe.a || fresh(shards[j].a))
        && shards[j].View() == Shard(old(stripe.View()), parm.dataShards, j)
      ensures forall j :: 0 <= j < parm.dataShards ==>
        IsWindow(shards[j], stripe, j, SplitSize(stripe.Length(), parm.dataShards))
    {
      hide SplitSize, Shard, IsWindow, Offset;
      ghost var src := stripe.View();
      var size := SplitSize(stripe.Length(), parm.dataShards);
      shards := [];
      for j := 0 to parm.ShardCount()
        invariant |shards| == j && stripe.a[..stripe.hi] == old(stripe.a[..stripe.hi])
        invariant forall i :: 0 <= i < j ==>
          && shards[i].Valid()
          && (fresh(shards[i].a) || (shards[i].a == stripe.a && shards[i].hi <= stripe.lo + Offset(j, size)))
          && shards[i].View() == Shard(src, parm.dataShards, i)
        invariant forall i :: 0 <= i < j && i < parm.dataShards ==> IsWindow(shards[i], stripe, i, size)
      {
        OffsetShift(j, size);
        assert stripe.View() == src by {
          assert stripe.View() == stripe.a[..stripe.hi][stripe.lo..];
        }
        label before:
        var s := EncodeShard(stripe, j);
        forall i | 0 <= i < j
          ensures shards[i].View() == Shard(src, parm.dataShards, i)
        {
          assert shards[i].View() == old@before(shards[i].View());
        }
        shards := shards + [s];
      }
    }

    /** Shard j: a window into the buffer if it has room for one, memory of its own otherwise. */
    method EncodeShard(stripe: Slice, j: nat) returns (s: Slice)
      requires Valid() && stripe.Valid()
      modifies stripe.a
      ensures var size := SplitSize(stripe.Length(), parm.dataShards);
        && s.Valid() && s.View() == Shard(old(stripe.View()), parm.dataShards, j)
        && (fresh(s.a) || (s.a == stripe.a && s.hi == stripe.lo + Offset(j + 1, size)))
        && (j < parm.dataShards ==> IsWindow(s, stripe, j, size))
        && forall x :: 0 <= x < stripe.a.Length && (x < stripe.hi || x < stripe.lo + Offset(j, size)) ==>
             stripe.a[x] == old(stripe.a[x])
      ensures stripe.a[..stripe.hi] == old(stripe.a[..stripe.hi])
    {
      hide SplitSize, Shard, Offset;
      ghost var src := stripe.View();
      var size := SplitSize(stripe.Length(), parm.dataShards);
      var lo, hi := stripe.lo + Offset(j, size), stripe.lo + Offset(j + 1, size);
      OffsetShift(j, size);
      OffsetIsProduct(j + 1, size);
      if size == 0 || hi > stripe.a.Length {
        s := FreshShard(stripe, j);
      } else {
        var t := Shard(stripe.a[stripe.lo..stripe.hi], parm.dataShards, j);
        forall x | lo <= x < hi && stripe.hi <= x {
          stripe.a[x] := t[x - lo];
        }
        s := Slice(stripe.a, lo, hi);
        forall x | lo <= x < hi
          ensures stripe.a[x] == t[x - lo]
        {
          if x < stripe.hi {
            WindowByte(src, parm.dataShards, j, x - lo);
            assert stripe.a[x] == old(stripe.a[x]) == src[x - stripe.lo];
          }
        }
        assert s.View() == t;
      }
    }

    /** Shard j in memory of its own: a padded data shard or a parity shard. */
    method FreshShard(stripe: Slice, j: nat) returns (s: Slice)
      requires Valid() && stripe.Valid()
      ensures s.Valid() && fresh(s.a) && s.View() == Shard(stripe.View(), parm.dataShards, j)
    {
      hide SplitSize;
      var t := Shard(stripe.a[stripe.lo..stripe.hi], parm.dataShards, j);
      var a := new byte[|t|](i requires 0 <= i < |t| => t[i]);
      s := Slice(a, 0, |t|);
      assert a[0..|t|] == t;
    }

    /** Fills lost shards in place; leaves the shards alone on an error. */
    method Reconstruct(shards: array<seq<byte>>) returns (r: Result<()>)
      requires Valid() && shards.Length == parm.ShardCount()
      modifies shards
      ensures match Reconstructed(old(shards[..]), parm)
        case Ok(full) => r == Ok(()) && shards[..] == full
        case Err(e) => r == Err(e) && shards[..] == old(shards[..])
    {
      hide Present, Completed;
      var empty := AllEmpty(shards);
      var given := shards[..];
      var js := Present(given, |given|);
      if empty {
        return Ok(());
      }
      ghost var some :| 0 <= some < |given| && |given[some]| > 0;
      PresentHas(given, |given|, some);
      var size := |given[js[0]]|;
      for j := 0 to |given|
        invariant SameSizes(given[..j], size)
      {
        if |given[j]| != 0 && |given[j]| != size {
          return Err(ShardSize);
        }
        assert given[..j + 1] == given[..j] + [given[j]];
      }
      assert given[..|given|] == given;
      if |js| == |given| {
        return Ok(());
      }
      if |js| < parm.dataShards {
        return Err(TooFewShards);
      }
      FillIn(shards, js[..parm.dataShards], size);
      return Ok(());
    }

    method FillIn(shards: array<seq<byte>>, js: seq<nat>, size: nat)
      requires forall i :: 0 <= i < |js| ==> js[i] < shards.Length && |shards[js[i]]| == size
      modifies shards
      ensures shards[..] == Completed(old(shards[..]), js, size)
    {
      hide Rebuild;
      var given := shards[..];
      for j := 0 to shards.Length
        invariant forall i :: 0 <= i < j ==> shards[i] == Completed(given, js, size)[i]
        invariant forall i :: j <= i < shards.Length ==> shards[i] == given[i]
      {
        if |shards[j]| == 0 {
          shards[j] := Rebuild(given, js, size, j);
        }
      }
      assert shards[..] == Completed(given, js, size);
    }

    /** Forgets the shards not marked present, then reconstructs. */
    method ReconstructSome(shards: array<seq<byte>>, present: seq<bool>) returns (r: Result<()>)
      requires Valid() && shards.Length == parm.ShardCount() == |present|
      modifies shards
      ensures match Reconstructed(Masked(old(shards[..]), present), parm)
        case Ok(full) => r == Ok(()) && shards[..] == full
        case Err(e) => r == Err(e) && shards[..] == Masked(old(shards[..]), present)
    {
      ghost var given := shards[..];
      for i := 0 to shards.Length
        invariant forall j :: 0 <= j < i ==> shards[j] == Masked(given, present)[j]
        invariant forall j :: i <= j < shards.Length ==> shards[j] == given[j]
      {
        if !present[i] {
          shards[i] := [];
        }
      }
      assert shards[..] == Masked(given, present);
      r := Reconstruct(shards);
    }

    /** Overwrites dst with the first size bytes of the joined data shards. */
    method Join(dst: array<byte>, shards: seq<seq<byte>>, size: nat) returns (r: Result<()>)
      requires Valid() && |shards| == parm.ShardCount() && dst.Length == size
      modifies dst
      ensures match Joined(shards, parm, size)
        case Ok(s) => r == Ok(()) && dst[..] == s
        case Err(e) => r == Err(e)
    {
      hide Flatten;
      var i, pos := 0, 0;
      FlattenNone(shards);
      while i < parm.dataShards && pos < size
        invariant 0 <= i <= parm.dataShards && 0 <= pos <= size
        invariant dst[..pos] <= Flatten(shards[..i])
        invariant pos < size ==> dst[..pos] == Flatten(shards[..i])
      {
        ghost var before := dst[..pos];
        var s := shards[i];
        var n := if |s| <= size - pos then |s| else size - pos;
        forall c | 0 <= c < n {
          dst[pos + c] := s[c];
        }
        assert dst[..pos + n] == before + s[..n];
        FlattenNext(shards, i);
        i, pos := i + 1, pos + n;
      }
      FlattenFront(shards, i, parm.dataShards);
      if pos < size {
        return Err(ShortData);
      }
      assert dst[..] == dst[..pos];
      return Ok(());
    }
  }

  lemma FlattenNone(shards: seq<seq<byte>>)
    ensures Flatten(shards[..0]) == []
  {
  }

  lemma FlattenNext(shards: seq<seq<byte>>, i: nat)
    requires i < |shards|
    ensures Flatten(shards[..i + 1]) == Flatten(shards[..i]) + shards[i]
  {
    FlattenConcat(shards[..i], [shards[i]]);
    assert Flatten([shards[i]]) == shards[i] + Flatten([shards[i]][1..]);
    assert shards[..i + 1] == shards[..i] + [shards[i]];
  }

  lemma FlattenFront(shards: seq<seq<byte>>, i: nat, k: nat)
    requires i <= k <= |shards|
    ensures Flatten(shards[..i]) <= Flatten(shards[..k])
  {
    FlattenConcat(shards[..i], shards[i..k]);
    assert shards[..i] + shards[i..k] == shards[..k];
  }

  method AllEmpty(shards: array<seq<byte>>) returns (r: bool)
    ensures r <==> forall j :: 0 <= j < shards.Length ==> |shards[j]| == 0
  {
    for j := 0 to shards.Length
      invariant forall i :: 0 <= i < j ==> |shards[i]| == 0
    {
      if |shards[j]| != 0 {
        return false;
      }
    }
    return true;
  }

  lemma {:induction false} FlattenConcat(xs: seq<seq<byte>>, ys: seq<seq<byte>>)
    ensures Flatten(xs + ys) == Flatten(xs) + Flatten(ys)
    decreases |xs|
  {
    if |xs| == 0 {
      assert xs + ys == ys;
    } else {
      FlattenConcat(xs[1..], ys);
      assert (xs + ys)[1..] == xs[1..] + ys;
    }
  }

  /** A byte of the stripe is in the data shard that its place falls in. */
  lemma WindowByte(stripe: seq<byte>, k: nat, j: nat, c: nat)
    requires 1 <= k && c < SplitSize(|stripe|, k) && Offset(j, SplitSize(|stripe|, k)) + c < |stripe|
    ensures Shard(stripe, k, j)[c] == stripe[Offset(j, SplitSize(|stripe|, k)) + c]
  {
    hide SplitSize, Offset;
    var size := SplitSize(|stripe|, k);
    SplitSizeCovers(|stripe|, k);
    if j >= k {
      OffsetMonotone(k, j, size);
    }
  }

  /** There is an encoder exactly for data and parity shards of which each has a point of its own. */
  lemma EncoderForExactly(p: Params)
    ensures EncoderFor(p) ==
      if p.dataShards >= 1 && p.parityShards >= 1 && p.dataShards + p.parityShards <= 256 then Ok(Encoder(p))
      else Err(InvalidParams)
    ensures EncoderFor(p).Ok? <==>
      p.dataShards >= 1 && p.parityShards >= 1 && Distinct(Points(Upto(p.dataShards + p.parityShards)))
  {
    ValidExactly(p);
  }

  /** The non-empty ones of the first n shards. */
  function NotEmpty(shards: seq<seq<byte>>, n: nat): set<nat> { set j | 0 <= j < |shards| && j < n && |shards[j]| > 0 }

  predicate Uneven(shards: seq<seq<byte>>) {
    exists i, j :: 0 <= i < |shards| && 0 <= j < |shards| && |shards[i]| > 0 && |shards[j]| > 0 && |shards[i]| != |shards[j]|
  }

  /** Reconstruction fails on shards of different sizes, and on fewer than k of them, but not on none. */
  lemma ReconstructedFails(shards: seq<seq<byte>>, p: Params)
    requires p.Valid() && |shards| == p.ShardCount()
    ensures Reconstructed(shards, p).Err? <==> Uneven(shards) || 0 < |NotEmpty(shards, |shards|)| < p.dataShards
    ensures Reconstructed(shards, p).Err? ==> Reconstructed(shards, p).error == if Uneven(shards) then ShardSize else TooFewShards
  {
    hide Rebuild, NotEmpty;
    var js := Present(shards, |shards|);
    CountPresent(shards, |shards|);
    forall j | 0 <= j < |shards| && |shards[j]| > 0
      ensures |js| > 0
    {
      PresentHas(shards, |shards|, j);
    }
  }

  lemma {:induction false} CountPresent(shards: seq<seq<byte>>, n: nat)
    requires n <= |shards|
    ensures |Present(shards, n)| == |NotEmpty(shards, n)|
  {
    NotEmptyStep(shards, n);
    hide NotEmpty;
    if n > 0 {
      CountPresent(shards, n - 1);
    }
  }

  lemma NotEmptyStep(shards: seq<seq<byte>>, n: nat)
    requires n <= |shards|
    ensures n == 0 ==> NotEmpty(shards, n) == {}
    ensures n > 0 ==> n - 1 !in NotEmpty(shards, n - 1)
    ensures n > 0 ==> NotEmpty(shards, n) == NotEmpty(shards, n - 1) + if |shards[n - 1]| > 0 then {n - 1} else {}
  {
  }

  /** An encoder for valid parameters, an error for the others. */
  function EncoderFor(p: Params): Result<Encoder> {
    if p.Valid() then Ok(Encoder(p)) else Err(InvalidParams)
  }
}
