/** Bytes, their bits and their unsigned values. */
module Bytes {
  /** One byte, as its eight bits, least significant first. */
  datatype byte = Byte(b0: bool, b1: bool, b2: bool, b3: bool, b4: bool, b5: bool, b6: bool, b7: bool)

  const ZERO := Byte(false, false, false, false, false, false, false, false)
  const ONE := Byte(true, false, false, false, false, false, false, false)

  function BitsOf(b: byte): seq<bool> { [b.b0, b.b1, b.b2, b.b3, b.b4, b.b5, b.b6, b.b7] }

  function OfBits(s: seq<bool>): byte
    requires |s| == 8
  {
    Byte(s[0], s[1], s[2], s[3], s[4], s[5], s[6], s[7])
  }

  function ValueOf(s: seq<bool>): nat {
    if |s| == 0 then 0 else (if s[0] then 1 else 0) + 2 * ValueOf(s[1..])
  }

  function LowBits(n: nat, width: nat): (s: seq<bool>)
    ensures |s| == width
  {
    if width == 0 then [] else [n % 2 == 1] + LowBits(n / 2, width - 1)
  }

  /** The unsigned value of a byte. */
  function ToInt(b: byte): nat { ValueOf(BitsOf(b)) }

  /** The byte of a value below 256. */
  function OfInt(n: nat): byte { OfBits(LowBits(n, 8)) }

  function Pow2(n: nat): nat { if n == 0 then 1 else 2 * Pow2(n - 1) }

  lemma {:induction false} ValueOfBound(s: seq<bool>)
    ensures ValueOf(s) < Pow2(|s|)
  {
    if |s| > 0 {
      ValueOfBound(s[1..]);
    }
  }

  lemma {:induction false} ValueOfLowBits(n: nat, width: nat)
    requires n < Pow2(width)
    ensures ValueOf(LowBits(n, width)) == n
  {
    if width > 0 {
      ValueOfLowBits(n / 2, width - 1);
      assert LowBits(n, width)[1..] == LowBits(n / 2, width - 1);
    }
  }

  lemma {:induction false} LowBitsValueOf(s: seq<bool>)
    ensures LowBits(ValueOf(s), |s|) == s
  {
    if |s| > 0 {
      LowBitsValueOf(s[1..]);
      assert ValueOf(s) / 2 == ValueOf(s[1..]);
    }
  }

  /** The bits weigh 1, 2, 4 and so on up to 128. */
  lemma ToIntIs(b: byte)
    ensures ToInt(b) ==
      (if b.b0 then 1 else 0) + (if b.b1 then 2 else 0) + (if b.b2 then 4 else 0) + (if b.b3 then 8 else 0)
      + (if b.b4 then 16 else 0) + (if b.b5 then 32 else 0) + (if b.b6 then 64 else 0) + (if b.b7 then 128 else 0)
  {
    hide ValueOf;
    assert ValueOf([]) == 0 by {
      NoBits();
    }
    var s := BitsOf(b);
    assert s[0..] == s && s[8..] == [];
    FourBits(s, 0);
    FourBits(s, 4);
  }

  lemma NoBits()
    ensures ValueOf([]) == 0
  {
  }

  lemma FourBits(s: seq<bool>, i: nat)
    requires i + 4 <= |s|
    ensures ValueOf(s[i..]) ==
      (if s[i] then 1 else 0) + (if s[i + 1] then 2 else 0) + (if s[i + 2] then 4 else 0) + (if s[i + 3] then 8 else 0)
      + 16 * ValueOf(s[i + 4..])
  {
    hide ValueOf;
    ValueFrom(s, i);
    ValueFrom(s, i + 1);
    ValueFrom(s, i + 2);
    ValueFrom(s, i + 3);
  }

  lemma ValueFrom(s: seq<bool>, i: nat)
    requires i < |s|
    ensures ValueOf(s[i..]) == (if s[i] then 1 else 0) + 2 * ValueOf(s[i + 1..])
  {
    assert s[i..][1..] == s[i + 1..];
  }

  lemma ToIntBound(b: byte)
    ensures ToInt(b) < 256
  {
    ValueOfBound(BitsOf(b));
    assert Pow2(8) == 256;
  }

  lemma BitsOfOfBits(s: seq<bool>)
    requires |s| == 8
    ensures BitsOf(OfBits(s)) == s
  {
  }

  lemma ToIntOfInt(n: nat)
    requires n < 256
    ensures ToInt(OfInt(n)) == n
  {
    assert Pow2(8) == 256;
    hide LowBits, ValueOf, OfBits, BitsOf, Pow2;
    ValueOfLowBits(n, 8);
    BitsOfOfBits(LowBits(n, 8));
  }

  lemma OfIntToInt(b: byte)
    ensures OfInt(ToInt(b)) == b
  {
    LowBitsValueOf(BitsOf(b));
  }

}
