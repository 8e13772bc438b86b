/** The order of shard keys, and listings as the sorted sequence of a set of keys. */
module Listing {
  import opened Bytes
  import opened Types

  /** Go's order on strings: by bytes, a proper prefix first. */
  predicate IdLess(a: ObjectID, b: ObjectID)
    decreases |a|
  {
    if |b| == 0 then false
    else if |a| == 0 then true
    else if a[0] != b[0] then ToInt(a[0]) < ToInt(b[0])
    else IdLess(a[1..], b[1..])
  }

  /** Up to i the ids agree, and there the first has the smaller byte or has ended. */
  ghost predicate SmallerAt(a: ObjectID, b: ObjectID, i: nat) {
    i <= |a| && i < |b| && a[..i] == b[..i] && (i == |a| || ToInt(a[i]) < ToInt(b[i]))
  }

  lemma SmallerLater(a: ObjectID, b: ObjectID, i: nat)
    requires |a| > 0 && |b| > 0 && a[0] == b[0] && i > 0
    ensures SmallerAt(a, b, i) <==> SmallerAt(a[1..], b[1..], i - 1)
  {
    hide ToInt;
    if i <= |a| && i < |b| {
      assert a[..i] == [a[0]] + a[1..][..i - 1] && b[..i] == [b[0]] + b[1..][..i - 1];
    }
  }

  /** The first difference decides: the smaller byte, or the end of the shorter id. */
  lemma {:induction false} IdLessIs(a: ObjectID, b: ObjectID)
    ensures IdLess(a, b) <==> exists i: nat :: SmallerAt(a, b, i)
    decreases |a|
  {
    hide ToInt;
    if |a| > 0 && |b| > 0 && a[0] == b[0] {
      IdLessIs(a[1..], b[1..]);
      hide SmallerAt;
      forall i: nat | i > 0
        ensures SmallerAt(a, b, i) <==> SmallerAt(a[1..], b[1..], i - 1)
      {
        SmallerLater(a, b, i);
      }
      NotAtFirst(a, b);
      if IdLess(a, b) {
        var i: nat :| SmallerAt(a[1..], b[1..], i);
        assert SmallerAt(a, b, i + 1);
      }
    } else if |b| > 0 {
      AtFirst(a, b);
    }
  }

  lemma NotAtFirst(a: ObjectID, b: ObjectID)
    requires |a| > 0 && |b| > 0 && a[0] == b[0]
    ensures !SmallerAt(a, b, 0)
  {
  }

  lemma AtFirst(a: ObjectID, b: ObjectID)
    requires |b| > 0 && (|a| == 0 || a[0] != b[0])
    ensures forall i: nat :: SmallerAt(a, b, i) ==> i == 0
    ensures SmallerAt(a, b, 0) <==> |a| == 0 || ToInt(a[0]) < ToInt(b[0])
  {
    hide ToInt;
    forall i: nat | i > 0
      ensures !SmallerAt(a, b, i)
    {
      if i <= |a| && i < |b| {
        assert a[..i][0] == a[0] && b[..i][0] == b[0];
      }
    }
  }

  predicate KeyLess(a: ShardKey, b: ShardKey) {
    if a.objectID != b.objectID then IdLess(a.objectID, b.objectID)
    else if a.stripeIdx != b.stripeIdx then a.stripeIdx < b.stripeIdx
    else a.shardIdx < b.shardIdx
  }

  /** Keys go by object, then by stripe, then by shard. */
  lemma KeyLessIs(a: ShardKey, b: ShardKey)
    ensures KeyLess(a, b) <==>
      || (exists i: nat :: SmallerAt(a.objectID, b.objectID, i))
      || (a.objectID == b.objectID && a.stripeIdx < b.stripeIdx)
      || (a.objectID == b.objectID && a.stripeIdx == b.stripeIdx && a.shardIdx < b.shardIdx)
  {
    IdLessIs(a.objectID, b.objectID);
    IdLessConnected(a.objectID, b.objectID);
    hide SmallerAt, IdLess;
  }

  lemma {:induction false} IdLessConnected(a: ObjectID, b: ObjectID)
    ensures a != b ==> IdLess(a, b) || IdLess(b, a)
    ensures !(IdLess(a, b) && IdLess(b, a))
    decreases |a|
  {
    hide ToInt;
    if |a| > 0 && |b| > 0 {
      if a[0] == b[0] {
        IdLessConnected(a[1..], b[1..]);
        assert a == [a[0]] + a[1..] && b == [b[0]] + b[1..];
      } else {
        OfIntToInt(a[0]);
        OfIntToInt(b[0]);
      }
    }
  }

  lemma {:induction false} IdLessTransitive(a: ObjectID, b: ObjectID, c: ObjectID)
    requires IdLess(a, b) && IdLess(b, c)
    ensures IdLess(a, c)
    decreases |a|
  {
    hide ToInt;
    if |a| > 0 && a[0] == b[0] == c[0] {
      IdLessTransitive(a[1..], b[1..], c[1..]);
    }
  }

  lemma KeyLessConnected(a: ShardKey, b: ShardKey)
    ensures a != b ==> KeyLess(a, b) || KeyLess(b, a)
    ensures !(KeyLess(a, b) && KeyLess(b, a))
  {
    IdLessConnected(a.objectID, b.objectID);
  }

  lemma KeyLessTransitive(a: ShardKey, b: ShardKey, c: ShardKey)
    requires KeyLess(a, b) && KeyLess(b, c)
    ensures KeyLess(a, c)
  {
    if a.objectID != b.objectID && b.objectID != c.objectID {
      IdLessTransitive(a.objectID, b.objectID, c.objectID);
      IdLessConnected(a.objectID, b.objectID);
    }
  }

  ghost predicate StrictlySorted(keys: seq<ShardKey>) {
    forall i, j :: 0 <= i < j < |keys| ==> KeyLess(keys[i], keys[j])
  }

  /** keys lists the set s: each key once, in increasing order. */
  ghost predicate IsListing(keys: seq<ShardKey>, s: set<ShardKey>) {
    StrictlySorted(keys) && forall k :: k in keys <==> k in s
  }

  /** A set of keys has one listing only. */
  lemma {:induction false} ListingUnique(xs: seq<ShardKey>, ys: seq<ShardKey>, s: set<ShardKey>)
    requires IsListing(xs, s) && IsListing(ys, s)
    ensures xs == ys
    decreases |xs|
  {
    hide KeyLess;
    ListingLength(xs, s);
    ListingLength(ys, s);
    if |xs| > 0 {
      assert xs[0] in xs && xs[0] in ys;
      var i :| 0 <= i < |ys| && ys[i] == xs[0];
      assert ys[0] in ys && ys[0] in xs;
      var j :| 0 <= j < |xs| && xs[j] == ys[0];
      KeyLessConnected(xs[0], ys[0]);
      assert xs[0] == ys[0];
      RestIsListing(xs, s);
      RestIsListing(ys, s);
      ListingUnique(xs[1..], ys[1..], s - {xs[0]});
      assert xs == [xs[0]] + xs[1..] && ys == [ys[0]] + ys[1..];
    }
  }

  lemma {:induction false} ListingLength(xs: seq<ShardKey>, s: set<ShardKey>)
    requires IsListing(xs, s)
    ensures |xs| == |s|
    decreases |xs|
  {
    if |xs| == 0 {
      assert s == {};
    } else {
      RestIsListing(xs, s);
      ListingLength(xs[1..], s - {xs[0]});
      assert xs[0] in xs;
    }
  }

  lemma RestIsListing(xs: seq<ShardKey>, s: set<ShardKey>)
    requires IsListing(xs, s) && |xs| > 0
    ensures IsListing(xs[1..], s - {xs[0]})
  {
    hide KeyLess;
    forall k
      ensures k in xs[1..] <==> k in s - {xs[0]}
    {
      assert xs == [xs[0]] + xs[1..];
      KeyLessConnected(xs[0], xs[0]);
      if k in xs[1..] {
        var i :| 0 <= i < |xs[1..]| && xs[1..][i] == k;
        assert xs[i + 1] == k && KeyLess(xs[0], xs[i + 1]);
      }
    }
  }

  // ----- Sorting

  /** Puts k into its place in a sorted sequence that does not hold it. */
  method Insert(keys: seq<ShardKey>, k: ShardKey, ghost s: set<ShardKey>) returns (r: seq<ShardKey>)
    requires IsListing(keys, s) && k !in s
    ensures IsListing(r, s + {k})
  {
    hide KeyLess;
    var i := |keys|;
    while i > 0 && KeyLess(k, keys[i - 1])
      invariant 0 <= i <= |keys|
      invariant forall j :: i <= j < |keys| ==> KeyLess(k, keys[j])
    {
      i := i - 1;
    }
    forall j | 0 <= j < i
      ensures KeyLess(keys[j], k)
    {
      assert keys[j] in keys && keys[i - 1] in keys;
      KeyLessConnected(k, keys[i - 1]);
      if j < i - 1 {
        KeyLessTransitive(keys[j], keys[i - 1], k);
      }
    }
    r := keys[..i] + [k] + keys[i..];
    assert keys == keys[..i] + keys[i..];
    forall x
      ensures x in r <==> x in s + {k}
    {
      assert x in r <==> x in keys[..i] || x == k || x in keys[i..];
      assert x in keys <==> x in keys[..i] || x in keys[i..];
    }
  }

  function Elements(keys: seq<ShardKey>): set<ShardKey> { set k | k in keys }

  /** Sorts distinct keys by object, stripe and shard. */
  method SortKeys(keys: seq<ShardKey>) returns (r: seq<ShardKey>)
    requires forall i, j :: 0 <= i < j < |keys| ==> keys[i] != keys[j]
    ensures IsListing(r, Elements(keys))
  {
    hide KeyLess;
    r := [];
    assert Elements(keys[..0]) == {};
    for i := 0 to |keys|
      invariant IsListing(r, Elements(keys[..i]))
    {
      assert keys[i] !in keys[..i];
      r := Insert(r, keys[i], Elements(keys[..i]));
      assert keys[..i + 1] == keys[..i] + [keys[i]];
      assert Elements(keys[..i + 1]) == Elements(keys[..i]) + {keys[i]};
    }
    assert keys[..|keys|] == keys;
  }

  // ----- The keys of one object

  ghost function KeysOf(s: set<ShardKey>, id: ObjectID): set<ShardKey> {
    set k | k in s && (id == [] || k.objectID == id)
  }

  /** Keeps the keys of one object, or all for the empty id. */
  method FilterKeys(all: seq<ShardKey>, id: ObjectID, ghost s: set<ShardKey>) returns (keys: seq<ShardKey>)
    requires IsListing(all, s)
    ensures IsListing(keys, KeysOf(s, id))
  {
    hide KeyLess;
    keys := [];
    for i := 0 to |all|
      invariant StrictlySorted(keys)
      invariant forall k :: k in keys <==> k in all[..i] && (id == [] || k.objectID == id)
    {
      assert all[..i + 1] == all[..i] + [all[i]];
      if id == [] || all[i].objectID == id {
        forall j | 0 <= j < |keys|
          ensures KeyLess(keys[j], all[i])
        {
          assert keys[j] in keys;
          var l :| 0 <= l < i && all[l] == keys[j];
        }
        keys := keys + [all[i]];
      }
    }
    assert all[..|all|] == all;
  }

  /** The last key of an object's listing carries its highest stripe. */
  lemma LastHasMaxStripe(keys: seq<ShardKey>, s: set<ShardKey>, id: ObjectID)
    requires id != [] && IsListing(keys, KeysOf(s, id)) && |keys| > 0
    ensures var last := keys[|keys| - 1];
      last in s && last.objectID == id && forall k :: k in s && k.objectID == id ==> k.stripeIdx <= last.stripeIdx
  {
    var last := keys[|keys| - 1];
    assert last in keys;
    forall k | k in s && k.objectID == id
      ensures k.stripeIdx <= last.stripeIdx
    {
      assert k in keys;
      var i :| 0 <= i < |keys| && keys[i] == k;
      assert i < |keys| - 1 ==> KeyLess(k, last);
    }
  }
}
