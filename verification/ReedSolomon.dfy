/** The erasure code: every byte column of a stripe is a polynomial, every shard its value at one point. */
module ReedSolomon {
  import opened Bytes
  import opened Polynomial
  import opened Types

  // ----- Pieces of a given size

  /** Where piece i begins. */
  function Offset(i: nat, size: nat): nat
    decreases i
  {
    if i == 0 then 0 else Offset(i - 1, size) + size
  }

  /** How many pieces n bytes make, the last one perhaps short. */
  function CeilDiv(n: nat, size: nat): nat
    requires size > 0
    decreases n
  {
    if n == 0 then 0 else 1 + CeilDiv(if n > size then n - size else 0, size)
  }

  lemma OffsetZero(size: nat)
    ensures Offset(0, size) == 0
  {
  }

  lemma {:induction false} OffsetIsProduct(i: nat, size: nat)
    ensures Offset(i, size) == i * size
    decreases i
  {
    if i > 0 {
      OffsetIsProduct(i - 1, size);
      assert i * size == (i - 1) * size + size;
    }
  }

  lemma {:induction false} OffsetMonotone(a: nat, b: nat, size: nat)
    requires a <= b
    ensures Offset(a, size) <= Offset(b, size)
    decreases b
  {
    if a < b {
      OffsetMonotone(a, b - 1, size);
    }
  }

  lemma {:induction false} OffsetShift(i: nat, size: nat)
    ensures Offset(i + 1, size) == Offset(i, size) + size
  {
  }

  /** The count is the one number of pieces that reaches n and no further. */
  lemma {:induction false} CeilDivBounds(n: nat, size: nat)
    requires size > 0
    ensures var t := CeilDiv(n, size);
      n <= Offset(t, size) && (t == 0 <==> n == 0) && (t > 0 ==> Offset(t - 1, size) < n)
    decreases n
  {
    if n > size {
      CeilDivBounds(n - size, size);
      var t := CeilDiv(n - size, size);
      OffsetShift(t, size);
      OffsetShift(t - 1, size);
    } else if n > 0 {
      assert CeilDiv(n, size) == 1 && Offset(1, size) == size;
    }
  }

  lemma CeilDivUnique(n: nat, size: nat, t: nat)
    requires size > 0 && n <= Offset(t, size) && (t > 0 ==> Offset(t - 1, size) < n)
    ensures CeilDiv(n, size) == t
  {
    hide CeilDiv, Offset;
    var u := CeilDiv(n, size);
    CeilDivBounds(n, size);
    if u < t {
      OffsetMonotone(u, t - 1, size);
    } else if t < u {
      OffsetMonotone(t, u - 1, size);
    }
  }

  /** The count as it is computed: (n + size - 1) / size. */
  lemma CeilDivFormula(n: nat, size: nat)
    requires size > 0
    ensures CeilDiv(n, size) == (n + size - 1) / size
  {
    hide CeilDiv, Offset;
    var q := (n + size - 1) / size;
    assert q * size <= n + size - 1 < q * size + size;
    OffsetIsProduct(q, size);
    if q > 0 {
      OffsetIsProduct(q - 1, size);
      assert (q - 1) * size == q * size - size;
    }
    CeilDivUnique(n, size, q);
  }

  // ----- Evaluation points

  function Upto(k: nat): seq<nat> { seq(k, i => i) }

  function Points(js: seq<nat>): (xs: seq<byte>)
    ensures |xs| == |js|
  {
    seq(|js|, i requires 0 <= i < |js| => OfInt(js[i]))
  }

  ghost predicate Increasing(js: seq<nat>) { forall i, j :: 0 <= i < j < |js| ==> js[i] < js[j] }

  /** Shard indices below 256 name distinct field elements. */
  lemma PointsDistinct(js: seq<nat>)
    requires Increasing(js) && forall i :: 0 <= i < |js| ==> js[i] < 256
    ensures Distinct(Points(js))
  {
    hide OfInt, ToInt;
    var xs := Points(js);
    forall i, j | 0 <= i < j < |xs|
      ensures xs[i] != xs[j]
    {
      ToIntOfInt(js[i]);
      ToIntOfInt(js[j]);
    }
  }

  /** There are as many distinct points as shards exactly up to 256 shards. */
  lemma EnoughPoints(n: nat)
    ensures Distinct(Points(Upto(n))) <==> n <= 256
  {
    hide ToInt, OfBits;
    if n <= 256 {
      PointsDistinct(Upto(n));
    } else {
      var xs := Points(Upto(n));
      assert LowBits(0, 8) == LowBits(256, 8);
      assert xs[0] == xs[256];
    }
  }

  /** Parameters are valid exactly when there are data and parity shards and a point for each of them. */
  lemma ValidExactly(p: Params)
    ensures p.Valid() <==>
      p.dataShards >= 1 && p.parityShards >= 1 && Distinct(Points(Upto(p.dataShards + p.parityShards)))
  {
    hide Points, Upto;
    if p.dataShards >= 1 && p.parityShards >= 1 {
      EnoughPoints(p.dataShards + p.parityShards);
    }
  }

  // ----- Encoding

  /** The padded length of every shard of a stripe of n bytes. */
  function SplitSize(n: nat, k: nat): nat
    requires k >= 1
  {
    CeilDiv(n, k)
  }

  function Padded(stripe: seq<byte>, i: nat): byte { if i < |stripe| then stripe[i] else ZERO }

  function Column(stripe: seq<byte>, k: nat, c: nat): (ys: seq<byte>)
    requires k >= 1
    ensures |ys| == k
  {
    seq(k, i requires i >= 0 => Padded(stripe, Offset(i, SplitSize(|stripe|, k)) + c))
  }

  function Cell(stripe: seq<byte>, k: nat, j: nat, c: nat): byte
    requires k >= 1
  {
    if j < k then Column(stripe, k, c)[j] else At(Points(Upto(k)), Column(stripe, k, c), OfInt(j))
  }

  function Shard(stripe: seq<byte>, k: nat, j: nat): (s: seq<byte>)
    requires k >= 1
    ensures |s| == SplitSize(|stripe|, k)
  {
    seq(SplitSize(|stripe|, k), c requires c >= 0 => Cell(stripe, k, j, c))
  }

  /** The first n shards of a stripe cut in k. */
  function Shards(stripe: seq<byte>, k: nat, n: nat): (shards: seq<seq<byte>>)
    requires k >= 1
    ensures |shards| == n
  {
    seq(n, j requires j >= 0 => Shard(stripe, k, j))
  }

  function EncodeStripe(stripe: seq<byte>, p: Params): (shards: seq<seq<byte>>)
    requires p.Valid()
    ensures |shards| == p.dataShards + p.parityShards
  {
    Shards(stripe, p.dataShards, p.ShardCount())
  }

  /** The code is systematic: data cells too are values of the column's polynomial. */
  lemma CellIsValue(stripe: seq<byte>, k: nat, j: nat, c: nat)
    requires 1 <= k <= 256
    ensures Cell(stripe, k, j, c) == At(Points(Upto(k)), Column(stripe, k, c), OfInt(j))
  {
    hide At, OfInt;
    if j < k {
      PointsDistinct(Upto(k));
      AtOwnPoint(Points(Upto(k)), Column(stripe, k, c), j);
    }
  }

  // ----- Reconstruction

  /** Indices of the non-empty shards among the first n, in order. */
  function Present(shards: seq<seq<byte>>, n: nat): (js: seq<nat>)
    requires n <= |shards|
    ensures |js| <= n
    ensures forall i :: 0 <= i < |js| ==> js[i] < n && |shards[js[i]]| > 0
  {
    if n == 0 then [] else Present(shards, n - 1) + if |shards[n - 1]| > 0 then [n - 1] else []
  }

  lemma {:induction false} PresentIncreasing(shards: seq<seq<byte>>, n: nat)
    requires n <= |shards|
    ensures Increasing(Present(shards, n))
  {
    if n > 0 {
      PresentIncreasing(shards, n - 1);
    }
  }

  lemma {:induction false} PresentHas(shards: seq<seq<byte>>, n: nat, j: nat)
    requires j < n <= |shards| && |shards[j]| > 0
    ensures j in Present(shards, n)
  {
    if j < n - 1 {
      PresentHas(shards, n - 1, j);
    } else {
      assert Present(shards, n)[|Present(shards, n - 1)|] == j;
    }
  }

  lemma {:induction false} PresentAll(shards: seq<seq<byte>>, n: nat, j: nat)
    requires j < n <= |shards| && |Present(shards, n)| == n
    ensures |shards[j]| > 0
  {
    if j < n - 1 {
      PresentAll(shards, n - 1, j);
    }
  }

  ghost predicate SameSizes(shards: seq<seq<byte>>, size: nat) {
    forall j :: 0 <= j < |shards| ==> |shards[j]| == 0 || |shards[j]| == size
  }

  /** The bytes at offset c of the shards listed in js. */
  function Row(shards: seq<seq<byte>>, js: seq<nat>, size: nat, c: nat): (vs: seq<byte>)
    requires forall i :: 0 <= i < |js| ==> js[i] < |shards| && |shards[js[i]]| == size
    requires c < size
    ensures |vs| == |js|
  {
    seq(|js|, i requires 0 <= i < |js| => shards[js[i]][c])
  }

  /** Shard j, interpolated from the shards listed in js. */
  function Rebuild(shards: seq<seq<byte>>, js: seq<nat>, size: nat, j: nat): (s: seq<byte>)
    requires forall i :: 0 <= i < |js| ==> js[i] < |shards| && |shards[js[i]]| == size
    ensures |s| == size
  {
    seq(size, c requires 0 <= c < size => At(Points(js), Row(shards, js, size, c), OfInt(j)))
  }

  /** Each shard is either lost or the one the stripe, cut in k, encodes to. */
  ghost predicate Survivors(stripe: seq<byte>, k: nat, shards: seq<seq<byte>>)
    requires k >= 1
  {
    forall j :: 0 <= j < |shards| ==> |shards[j]| == 0 || shards[j] == Shard(stripe, k, j)
  }

  /** Any k survivors, or more of them, determine every shard. */
  lemma AnyKRebuild(stripe: seq<byte>, k: nat, shards: seq<seq<byte>>, js: seq<nat>, j: nat)
    requires 1 <= k <= |js| && |shards| <= 256 && Survivors(stripe, k, shards) && Increasing(js)
    requires forall i :: 0 <= i < |js| ==> js[i] < |shards| && |shards[js[i]]| > 0
    requires k <= 256
    ensures Rebuild(shards, js, SplitSize(|stripe|, k), j) == Shard(stripe, k, j)
  {
    hide At, OfInt, Cell, Column;
    var size := SplitSize(|stripe|, k);
    var t := Rebuild(shards, js, size, j);
    PointsDistinct(js);
    forall c | 0 <= c < size
      ensures t[c] == Cell(stripe, k, j, c)
    {
      var ys := Column(stripe, k, c);
      var vs := Row(shards, js, size, c);
      forall i | 0 <= i < |js|
        ensures vs[i] == At(Points(Upto(k)), ys, Points(js)[i])
      {
        CellIsValue(stripe, k, js[i], c);
      }
      AnyPoints(Points(Upto(k)), ys, Points(js), vs, OfInt(j));
      CellIsValue(stripe, k, j, c);
    }
  }

  // ----- Joining

  function Flatten(shards: seq<seq<byte>>): seq<byte> {
    if |shards| == 0 then [] else shards[0] + Flatten(shards[1..])
  }

  lemma {:induction false} FlattenAt(shards: seq<seq<byte>>, size: nat, i: nat, c: nat)
    requires forall j :: 0 <= j < |shards| ==> |shards[j]| == size
    requires i < |shards| && c < size
    ensures Offset(i, size) + c < |Flatten(shards)| && Flatten(shards)[Offset(i, size) + c] == shards[i][c]
    decreases |shards|
  {
    if i > 0 {
      FlattenAt(shards[1..], size, i - 1, c);
    }
  }

  lemma {:induction false} FlattenLength(shards: seq<seq<byte>>, size: nat)
    requires forall j :: 0 <= j < |shards| ==> |shards[j]| == size
    ensures |Flatten(shards)| == Offset(|shards|, size)
  {
    if |shards| > 0 {
      FlattenLength(shards[1..], size);
    }
  }

  /** n bytes fit in k shards of the split size with less than k bytes to spare. */
  lemma SplitSizeCovers(n: nat, k: nat)
    requires k >= 1
    ensures n <= Offset(k, SplitSize(n, k)) <= n + (k - 1)
    ensures SplitSize(n, k) == 0 <==> n == 0
  {
    hide CeilDiv, Offset;
    var s := SplitSize(n, k);
    CeilDivBounds(n, k);
    OffsetIsProduct(s, k);
    OffsetIsProduct(k, s);
    if s > 0 {
      OffsetShift(s - 1, k);
    }
  }

  /** Byte i of a sequence cut in pieces lies in one of them. */
  lemma {:induction false} PieceOf(i: nat, size: nat, k: nat) returns (q: nat, c: nat)
    requires i < Offset(k, size)
    ensures q < k && c < size && i == Offset(q, size) + c
    decreases k
  {
    if i < Offset(k - 1, size) {
      q, c := PieceOf(i, size, k - 1);
    } else {
      q, c := k - 1, i - Offset(k - 1, size);
    }
  }

  /** Byte i of the joined data shards of an encoded stripe is byte i of the stripe. */
  lemma JoinedByte(stripe: seq<byte>, k: nat, data: seq<seq<byte>>, i: nat)
    requires 1 <= k <= |data| && i < |stripe|
    requires forall j :: 0 <= j < |data| ==> data[j] == Shard(stripe, k, j)
    ensures i < |Flatten(data)| && Flatten(data)[i] == stripe[i]
  {
    hide SplitSize, Flatten, Offset;
    var size := SplitSize(|stripe|, k);
    SplitSizeCovers(|stripe|, k);
    var q, c := PieceOf(i, size, k);
    FlattenAt(data, size, q, c);
  }

  /** The first k shards of a stripe cut in k, or more of them, joined and truncated, are the stripe. */
  lemma JoinEncoded(stripe: seq<byte>, k: nat, data: seq<seq<byte>>)
    requires 1 <= k <= |data| && data == Shards(stripe, k, |data|)
    ensures |Flatten(data)| >= |stripe| && Flatten(data)[..|stripe|] == stripe
  {
    hide SplitSize, Flatten, Shard, Offset;
    FlattenLength(data, SplitSize(|stripe|, k));
    SplitSizeCovers(|stripe|, k);
    OffsetMonotone(k, |data|, SplitSize(|stripe|, k));
    forall i | 0 <= i < |stripe|
      ensures i < |Flatten(data)| && Flatten(data)[i] == stripe[i]
    {
      JoinedByte(stripe, k, data, i);
    }
  }
}
