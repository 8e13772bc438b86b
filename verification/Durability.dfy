/** What readers of an object get while its shards are lost, rotten, overwritten or deleted. */
module Durability {
  import opened Bytes
  import opened Types
  import opened ReedSolomon
  import opened Listing
  import opened StoreModel
  import opened ObjectModel
  import opened Placement
  import opened Recovery
  import opened Reading

  // ----- Data and its stripes

  /** The bytes of the first t stripes. */
  function Prefix(data: seq<byte>, size: nat, t: nat): seq<byte> { data[..Min(Offset(t, size), |data|)] }

  lemma PrefixGrows(data: seq<byte>, size: nat, t: nat)
    requires size > 0 && t < StripeCount(|data|, size)
    ensures Prefix(data, size, t + 1) == Prefix(data, size, t) + Cut(data, size, t)
  {
    hide Offset, StripeCount;
    CutLength(data, size, t);
    OffsetShift(t, size);
  }

  lemma PrefixWhole(data: seq<byte>, size: nat)
    requires size > 0
    ensures Prefix(data, size, StripeCount(|data|, size)) == data && Prefix(data, size, 0) == []
  {
    hide Offset, StripeCount;
    OffsetZero(size);
    CountBounds(|data|, size);
  }

  lemma PrefixIsPart(data: seq<byte>, size: nat, t: nat)
    ensures Prefix(data, size, t) <= data
  {
  }

  lemma PrefixShorter(data: seq<byte>, size: nat, t: nat)
    requires size > 0 && t < StripeCount(|data|, size)
    ensures |Prefix(data, size, t)| == Offset(t, size) < |data|
  {
    hide Offset, StripeCount;
    CutLength(data, size, t);
  }

  // ----- Reading what is left of an object

  ghost predicate AllRecoverable(c: Config, st: StoreState, id: ObjectID, lo: nat, hi: nat)
    requires c.Valid() && hi < MAX_U32
  {
    forall i: u32 :: lo <= i < hi ==> Recoverable(c, st, id, i)
  }

  ghost predicate IsFirstLost(c: Config, st: StoreState, id: ObjectID, lo: nat, f: nat, hi: nat)
    requires c.Valid() && hi < MAX_U32
  {
    lo <= f < hi && !Recoverable(c, st, id, f) && AllRecoverable(c, st, id, lo, f)
  }

  /** Reading t stripes from stripe i: all of them, or those before the first that cannot be recovered. */
  lemma {:induction false} CollectEroded(
    c: Config, d: Config, st: StoreState, id: ObjectID, data: seq<byte>, i: u32, t: u32)
    requires Suits(d, c) && Fits(c, data) && Eroded(c, st, id, data)
    requires i <= t <= StripeCount(|data|, c.stripeSize)
    ensures AllRecoverable(d, st, id, i, t) ==>
      Collect(d, st, id, i, t).Done?
      && Prefix(data, c.stripeSize, i) + Collect(d, st, id, i, t).bytes == Prefix(data, c.stripeSize, t)
    ensures forall f :: IsFirstLost(d, st, id, i, f, t) ==>
      Collect(d, st, id, i, t).Broken? && Collect(d, st, id, i, t).error == Unrecoverable
      && Prefix(data, c.stripeSize, i) + Collect(d, st, id, i, t).bytes == Prefix(data, c.stripeSize, f)
    decreases t - i
  {
    hide Prefix, Cut, StripeRead, Recoverable, Eroded, StripeEroded, StripeCount;
    if i < t {
      var stripe := Cut(data, c.stripeSize, i);
      CutLength(data, c.stripeSize, i);
      ErodedStripe(c, st, id, data, i);
      StripeReadsBack(c, d, st, id, i, stripe);
      PrefixGrows(data, c.stripeSize, i);
      if !Recoverable(d, st, id, i) {
        assert forall f :: IsFirstLost(d, st, id, i, f, t) ==> f == i;
      } else {
        CollectEroded(c, d, st, id, data, i + 1, t);
        assert forall f :: IsFirstLost(d, st, id, i, f, t) ==> IsFirstLost(d, st, id, i + 1, f, t);
        assert Prefix(data, c.stripeSize, i) + Collect(d, st, id, i, t).bytes
            == Prefix(data, c.stripeSize, i + 1) + Collect(d, st, id, i + 1, t).bytes;
      }
    }
  }

  /** How many stripes the listing shows. */
  ghost function Visible(st: StoreState, id: ObjectID): nat {
    var keys := KeysOf(st.shards.Keys, id);
    if keys == {} then 0 else MaxStripe(keys) + 1
  }

  lemma VisibleIsBounded(c: Config, st: StoreState, id: ObjectID, data: seq<byte>)
    requires Fits(c, data) && id != [] && Eroded(c, st, id, data)
    ensures Visible(st, id) <= StripeCount(|data|, c.stripeSize)
  {
    hide StripeCount;
    var keys := KeysOf(st.shards.Keys, id);
    if keys != {} {
      var k :| k in keys && k.stripeIdx == MaxStripe(keys);
      assert k in st.shards;
    }
  }

  /** The size that opening works out from the last of t visible stripes and the reader's stripe size. */
  function Announced(data: seq<byte>, size: nat, readerSize: i64, t: nat): i64
    requires t > 0
  {
    Wrap64(Wrap64((t - 1) * readerSize) + |Cut(data, size, t - 1)|)
  }

  /** Opening finds the visible stripes and, from one valid shard of the last of them, works out a size. */
  lemma OpenEroded(c: Config, d: Config, st: StoreState, id: ObjectID, data: seq<byte>)
    requires Reads(d, c) && Fits(c, data) && id != [] && Eroded(c, st, id, data)
    ensures Visible(st, id) <= StripeCount(|data|, c.stripeSize) < MAX_U32
    ensures var t := Visible(st, id);
      Open(d, st, id) ==
        if t == 0 then Ok(Empty(|data|))
        else if ValidCount(d, st, id, t - 1, d.params.ShardCount()) == 0 then Err(Unrecoverable)
        else Ok(Stream(t, Announced(data, c.stripeSize, d.stripeSize, t)))
    ensures d.stripeSize == c.stripeSize && Visible(st, id) > 0 ==>
      Announced(data, c.stripeSize, d.stripeSize, Visible(st, id)) == |Prefix(data, c.stripeSize, Visible(st, id))|
  {
    hide StripeCount, ValidCount, FirstLength, Cut, Prefix, Eroded, KeysOf;
    VisibleIsBounded(c, st, id, data);
    var keys := KeysOf(st.shards.Keys, id);
    if keys == {} {
      MarkerOfEroded(c, st, id, data);
    } else {
      var mx := MaxStripe(keys);
      ErodedStripe(c, st, id, data, mx);
      FirstLengthIs(c, d, st, id, mx, Cut(data, c.stripeSize, mx), 0);
      NoneGathered(d, st, id, mx);
      AnnouncedIs(c, data, d.stripeSize, mx + 1);
      NoWrap(mx + 1);
    }
  }

  lemma MarkerOfEroded(c: Config, st: StoreState, id: ObjectID, data: seq<byte>)
    requires Fits(c, data) && Eroded(c, st, id, data)
    ensures id in st.markers && st.markers[id].size == |data|
    ensures st.markers[id].stripes == StripeCount(|data|, c.stripeSize)
  {
    hide StripeCount;
  }

  /** A sum worked out at 64 bits is right exactly when it is off by a multiple of 2^64. */
  lemma WrapMeets(a: int, b: nat, right: nat)
    requires right < 0x8000_0000_0000_0000
    ensures Wrap64(Wrap64(a) + b) == right <==> (a + b - right) % 0x1_0000_0000_0000_0000 == 0
  {
  }

  /** The reader's stripe size makes no difference to the size of t visible stripes. */
  predicate SizesAgree(size: i64, readerSize: i64, t: nat) {
    t > 0 ==> ((t - 1) * (readerSize - size)) % 0x1_0000_0000_0000_0000 == 0
  }

  lemma SameSizesAgree(size: i64, t: nat)
    ensures SizesAgree(size, size, t)
  {
    OffBy(t, size, size);
  }

  /** The size worked out is that of the visible stripes exactly when the stripe sizes agree. */
  lemma AnnouncedIs(c: Config, data: seq<byte>, readerSize: i64, t: nat)
    requires Fits(c, data) && 0 < t <= StripeCount(|data|, c.stripeSize)
    ensures Announced(data, c.stripeSize, readerSize, t) == |Prefix(data, c.stripeSize, t)| <==>
      SizesAgree(c.stripeSize, readerSize, t)
    ensures readerSize == c.stripeSize ==> Announced(data, c.stripeSize, readerSize, t) == |Prefix(data, c.stripeSize, t)|
  {
    hide Cut, StripeCount, Wrap64, Offset, Prefix;
    PrefixGrows(data, c.stripeSize, t - 1);
    PrefixShorter(data, c.stripeSize, t - 1);
    PrefixIsPart(data, c.stripeSize, t);
    OffsetIsProduct(t - 1, c.stripeSize);
    var a, b := (t - 1) * readerSize, (t - 1) * c.stripeSize;
    var len, right := |Cut(data, c.stripeSize, t - 1)|, |Prefix(data, c.stripeSize, t)|;
    assert right == b + len;
    WrapMeets(a, len, right);
    OffBy(t - 1, readerSize, c.stripeSize);
    SameSizesAgree(c.stripeSize, t);
    assert a + len - right == (t - 1) * (readerSize - c.stripeSize);
  }

  lemma OffBy(n: nat, a: int, b: int)
    ensures n * a - n * b == n * (a - b)
    ensures a == b ==> n * (a - b) == 0
  {
  }

  /** Every outcome of reading what is left of an object, by what is visible and recoverable. */
  lemma ReadEroded(c: Config, d: Config, st: StoreState, id: ObjectID, data: seq<byte>)
    requires Suits(d, c) && Fits(c, data) && id != [] && Eroded(c, st, id, data)
    ensures Visible(st, id) <= StripeCount(|data|, c.stripeSize) < MAX_U32
    ensures var t, o := Visible(st, id), ReadAll(d, st, id);
      if t > 0 && ValidCount(d, st, id, t - 1, d.params.ShardCount()) == 0 then o == NotOpened(Unrecoverable)
      else if AllRecoverable(d, st, id, 0, t) then o == Outcome.Done(Prefix(data, c.stripeSize, t))
      else exists f :: IsFirstLost(d, st, id, 0, f, t) && o == Broken(Prefix(data, c.stripeSize, f), Unrecoverable)
  {
    hide StripeCount, ValidCount, Collect, Prefix, Eroded, Recoverable;
    var t := Visible(st, id);
    OpenEroded(c, d, st, id, data);
    PrefixWhole(data, c.stripeSize);
    if t > 0 && ValidCount(d, st, id, t - 1, d.params.ShardCount()) > 0 {
      CollectEroded(c, d, st, id, data, 0, t);
      if !AllRecoverable(d, st, id, 0, t) {
        var f := FirstLost(d, st, id, 0, t);
      }
    }
  }

  lemma {:induction false} FirstLost(c: Config, st: StoreState, id: ObjectID, lo: u32, t: u32) returns (f: u32)
    requires c.Valid() && lo <= t && !AllRecoverable(c, st, id, lo, t)
    ensures IsFirstLost(c, st, id, lo, f, t)
    decreases t
  {
    hide Recoverable;
    if AllRecoverable(c, st, id, lo, t - 1) {
      f := t - 1;
    } else {
      f := FirstLost(c, st, id, lo, t - 1);
    }
  }

  /** A stripe with a valid shard is within what the listing shows. */
  lemma ValidIsVisible(c: Config, st: StoreState, id: ObjectID, i: u32)
    requires c.Valid()
    ensures ValidCount(c, st, id, i, c.params.ShardCount()) > 0 ==> i < Visible(st, id)
  {
    hide ValidCount;
    if ValidCount(c, st, id, i, c.params.ShardCount()) > 0 {
      var j := ValidIsListed(c, st, id, i, c.params.ShardCount());
      assert ShardKey(id, i, j) in KeysOf(st.shards.Keys, id);
    }
  }

  // ----- Main results on faults

  /** An object is read back in full exactly when every stripe keeps at least k valid shards. */
  lemma ReadsBackExactly(c: Config, d: Config, st: StoreState, id: ObjectID, data: seq<byte>)
    requires Suits(d, c) && Fits(c, data) && id != [] && Eroded(c, st, id, data)
    ensures ReadAll(d, st, id) == Outcome.Done(data) <==> AllRecoverable(d, st, id, 0, StripeCount(|data|, c.stripeSize))
  {
    hide StripeCount, ValidCount, ReadAll, Prefix, Eroded;
    var t, n := Visible(st, id), StripeCount(|data|, c.stripeSize);
    ReadEroded(c, d, st, id, data);
    PrefixWhole(data, c.stripeSize);
    if t < n {
      PrefixShorter(data, c.stripeSize, t);
      ValidIsVisible(d, st, id, n - 1);
      assert !Recoverable(d, st, id, n - 1);
    }
    if t > 0 && ValidCount(d, st, id, t - 1, d.params.ShardCount()) == 0 {
      assert !Recoverable(d, st, id, t - 1);
    } else if !AllRecoverable(d, st, id, 0, t) {
      assert !AllRecoverable(d, st, id, 0, n);
    }
  }

  /** Whatever shards are gone or rotten, what is read is the object up to some stripe: never a wrong byte. */
  lemma NeverAWrongByte(c: Config, d: Config, st: StoreState, id: ObjectID, data: seq<byte>)
    requires Suits(d, c) && Fits(c, data) && id != [] && Eroded(c, st, id, data)
    ensures match ReadAll(d, st, id)
      case Done(bytes) => bytes <= data
      case Broken(bytes, e) => bytes <= data && e == Unrecoverable
      case NotOpened(e) => e == Unrecoverable
  {
    hide StripeCount, ValidCount, ReadAll, Eroded, IsFirstLost, AllRecoverable;
    ReadEroded(c, d, st, id, data);
  }

  /** Some shard of the stripe is in the listing, valid or not. */
  ghost predicate Listed(st: StoreState, id: ObjectID, i: u32) {
    exists k :: k in st.shards && k.objectID == id && k.stripeIdx == i
  }

  lemma LastListedIsAll(c: Config, st: StoreState, id: ObjectID, data: seq<byte>)
    requires Fits(c, data) && id != [] && Eroded(c, st, id, data)
    ensures Visible(st, id) == StripeCount(|data|, c.stripeSize) <==>
      data == [] || Listed(st, id, StripeCount(|data|, c.stripeSize) - 1)
  {
    hide StripeCount;
    var n, keys := StripeCount(|data|, c.stripeSize), KeysOf(st.shards.Keys, id);
    VisibleIsBounded(c, st, id, data);
    CountBounds(|data|, c.stripeSize);
    if data != [] && Listed(st, id, n - 1) {
      var k :| k in st.shards && k.objectID == id && k.stripeIdx == n - 1;
      assert k in keys;
    } else if n > 0 && keys != {} {
      var k :| k in keys && k.stripeIdx == MaxStripe(keys);
      assert k in st.shards;
    }
  }

  /** While the last stripe has a listed shard, a read gives all the bytes or an error, after the stripes before the loss. */
  lemma AllOrError(c: Config, d: Config, st: StoreState, id: ObjectID, data: seq<byte>)
    requires Suits(d, c) && Fits(c, data) && id != [] && Eroded(c, st, id, data)
    requires data == [] || Listed(st, id, StripeCount(|data|, c.stripeSize) - 1)
    ensures var n, o := StripeCount(|data|, c.stripeSize), ReadAll(d, st, id);
      if n > 0 && ValidCount(d, st, id, n - 1, d.params.ShardCount()) == 0 then o == NotOpened(Unrecoverable)
      else if AllRecoverable(d, st, id, 0, n) then o == Outcome.Done(data)
      else exists f :: IsFirstLost(d, st, id, 0, f, n) && o == Broken(Prefix(data, c.stripeSize, f), Unrecoverable)
  {
    hide StripeCount, ValidCount, ReadAll, Prefix, Eroded, IsFirstLost, AllRecoverable, Listed;
    LastListedIsAll(c, st, id, data);
    ReadEroded(c, d, st, id, data);
    PrefixWhole(data, c.stripeSize);
  }

  /**
   * A read ends without an error exactly when all stripes that the listing shows are recoverable. It then lacks the
   * stripes that the listing does not show, and says nothing of it.
   */
  lemma TruncatesSilently(c: Config, d: Config, st: StoreState, id: ObjectID, data: seq<byte>)
    requires Suits(d, c) && Fits(c, data) && id != [] && Eroded(c, st, id, data)
    ensures var t, n, o := Visible(st, id), StripeCount(|data|, c.stripeSize), ReadAll(d, st, id);
      && t <= n < MAX_U32
      && (o.Done? <==> AllRecoverable(d, st, id, 0, t))
      && (o.Done? ==> o.bytes == Prefix(data, c.stripeSize, t) && (o.bytes == data <==> t == n))
  {
    hide StripeCount, ValidCount, ReadAll, Prefix, Eroded;
    var t, n := Visible(st, id), StripeCount(|data|, c.stripeSize);
    ReadEroded(c, d, st, id, data);
    PrefixWhole(data, c.stripeSize);
    if t < n {
      PrefixShorter(data, c.stripeSize, t);
    }
    if t > 0 && ValidCount(d, st, id, t - 1, d.params.ShardCount()) == 0 {
      assert !Recoverable(d, st, id, t - 1);
    }
  }

  /**
   * The size that opening announces is that of the bytes a read then gives exactly when the listing shows some stripe, or
   * there are no bytes, and the stripe sizes agree. If they are the same, it is the size of the object exactly when the
   * listing shows all its stripes or none.
   */
  lemma AnnouncedSize(c: Config, d: Config, st: StoreState, id: ObjectID, data: seq<byte>)
    requires Suits(d, c) && Fits(c, data) && id != [] && Eroded(c, st, id, data) && Open(d, st, id).Ok?
    ensures var t, size, o := Visible(st, id), Open(d, st, id).value.size, ReadAll(d, st, id);
      && (o.Done? ==> (size == |o.bytes| <==> (t > 0 || data == []) && SizesAgree(c.stripeSize, d.stripeSize, t)))
      && (d.stripeSize == c.stripeSize ==> (size == |data| <==> t == 0 || t == StripeCount(|data|, c.stripeSize)))
  {
    hide StripeCount, ValidCount, ReadAll, Open, Prefix, Eroded, AllRecoverable, Announced;
    var t, n := Visible(st, id), StripeCount(|data|, c.stripeSize);
    TruncatesSilently(c, d, st, id, data);
    OpenEroded(c, d, st, id, data);
    PrefixWhole(data, c.stripeSize);
    if t < n {
      PrefixShorter(data, c.stripeSize, t);
    }
    if t > 0 {
      AnnouncedIs(c, data, d.stripeSize, t);
      hide SizesAgree;
    }
  }

  /**
   * From one valid shard of the last stripe opening finds the stripe count that was put, as the marker has it, and the size
   * exactly when the stripe sizes agree.
   */
  lemma SizeWithoutMarker(c: Config, d: Config, st: StoreState, id: ObjectID, data: seq<byte>)
    requires Reads(d, c) && Fits(c, data) && id != [] && Eroded(c, st, id, data) && StripeCount(|data|, c.stripeSize) > 0
    requires ValidCount(d, st, id, StripeCount(|data|, c.stripeSize) - 1, d.params.ShardCount()) > 0
    ensures var n, o := StripeCount(|data|, c.stripeSize), Open(d, st, id);
      && o.Ok? && o.value.Stream? && o.value.total == n == st.markers[id].stripes
      && st.markers[id].size == |data|
      && (o.value.size == |data| <==> SizesAgree(c.stripeSize, d.stripeSize, n))
  {
    hide StripeCount, ValidCount, Open, Prefix, Announced, Eroded, Visible;
    var n := StripeCount(|data|, c.stripeSize);
    ValidIsVisible(d, st, id, n - 1);
    OpenEroded(c, d, st, id, data);
    PrefixWhole(data, c.stripeSize);
    MarkerOfEroded(c, st, id, data);
    AnnouncedIs(c, data, d.stripeSize, n);
  }

  /** An object opens as an empty one exactly when every shard of it is gone; it keeps its size and reads as empty. */
  lemma VanishedReadsEmpty(c: Config, d: Config, st: StoreState, id: ObjectID, data: seq<byte>)
    requires Reads(d, c) && Fits(c, data) && id != [] && Eroded(c, st, id, data)
    ensures (exists size :: Open(d, st, id) == Ok(Empty(size))) <==> forall k :: k in st.shards ==> k.objectID != id
    ensures (forall k :: k in st.shards ==> k.objectID != id) ==>
      Open(d, st, id) == Ok(Empty(|data|)) && ReadAll(d, st, id) == Outcome.Done([])
  {
    hide StripeCount, Eroded, ValidCount, Prefix, Open;
    OpenEroded(c, d, st, id, data);
    var keys := KeysOf(st.shards.Keys, id);
    if keys != {} {
      var k :| k in keys;
      assert k in st.shards;
    } else {
      forall k | k in st.shards
        ensures k.objectID != id
      {
        assert k !in keys;
      }
    }
  }
}
