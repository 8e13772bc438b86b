/** Shard file names: eight hexadecimal digits, a dash, a decimal number and a suffix. */
module FileNames {
  import opened Arithmetic
  import opened Types

  const SUFFIX := ".shard"
  const MARKER_NAME := ".meta"

  // ----- Formatting

  function Digit(d: nat): char
    requires d < 16
  {
    "0123456789abcdef"[d]
  }

  /** Lower-case hexadecimal, padded with zeros to the given width. */
  function Hex(n: nat, width: nat): (s: string)
    ensures |s| == width
  {
    if width == 0 then "" else Hex(n / 16, width - 1) + [Digit(n % 16)]
  }

  function Decimal(n: nat): (s: string)
    ensures |s| > 0
  {
    if n < 10 then [Digit(n)] else Decimal(n / 10) + [Digit(n % 10)]
  }

  function ShardFileName(stripe: u32, shard: u32): string {
    Hex(stripe, 8) + "-" + Decimal(shard) + SUFFIX
  }

  /** The digits of n to a base, most significant first. */
  ghost predicate DigitChars(s: string, base: nat, n: nat)
    requires 2 <= base <= 16
  {
    forall i :: 0 <= i < |s| ==> s[i] == "0123456789abcdef"[n / Power(base, |s| - 1 - i) % base]
  }

  lemma DigitCharsStep(s: string, base: nat, n: nat)
    requires 2 <= base <= 16 && |s| > 0
    requires DigitChars(s[..|s| - 1], base, n / base) && s[|s| - 1] == "0123456789abcdef"[n % base]
    ensures DigitChars(s, base, n)
  {
    hide Power;
    var m := |s| - 1;
    forall i | 0 <= i < |s|
      ensures s[i] == "0123456789abcdef"[n / Power(base, |s| - 1 - i) % base]
    {
      if i < m {
        assert s[..m][i] == s[i];
        PowerStep(base, m - i);
        DivideTwice(n, base, Power(base, m - 1 - i));
      } else {
        PowerZero(base);
      }
    }
  }

  lemma PowerZero(base: nat)
    ensures Power(base, 0) == 1
  {
  }

  lemma PowerStep(base: nat, e: nat)
    requires e > 0
    ensures Power(base, e) == base * Power(base, e - 1)
  {
  }

  lemma {:induction false} HexIs(n: nat, width: nat)
    ensures DigitChars(Hex(n, width), 16, n)
  {
    hide DigitChars;
    if width > 0 {
      var s := Hex(n, width);
      assert s[..|s| - 1] == Hex(n / 16, width - 1);
      HexIs(n / 16, width - 1);
      DigitCharsStep(s, 16, n);
    } else {
      NoDigits(n);
    }
  }

  lemma NoDigits(n: nat)
    ensures DigitChars("", 16, n) && DigitChars("", 10, n)
  {
  }

  lemma {:induction false} DecimalIs(n: nat)
    ensures DigitChars(Decimal(n), 10, n)
    ensures n < Power(10, |Decimal(n)|) && (|Decimal(n)| > 1 ==> n >= Power(10, |Decimal(n)| - 1))
  {
    hide DigitChars, Power;
    var s := Decimal(n);
    PowerStep(10, |s|);
    if n < 10 {
      PowerZero(10);
      assert s[..0] == "";
      NoDigits(n / 10);
    } else {
      assert s[..|s| - 1] == Decimal(n / 10);
      DecimalIs(n / 10);
      PowerStep(10, |s| - 1);
      if |s| == 2 {
        PowerZero(10);
      }
    }
    DigitCharsStep(s, 10, n);
  }

  /** The name is the stripe in eight hexadecimal digits, a dash, the shard in decimal without leading zeros, ".shard". */
  lemma NameIs(stripe: u32, shard: u32)
    ensures var name := ShardFileName(stripe, shard);
      var d := |name| - 15;
      && d >= 1
      && DigitChars(name[..8], 16, stripe)
      && name[8] == '-'
      && DigitChars(name[9..9 + d], 10, shard)
      && shard < Power(10, d) && (d > 1 ==> shard >= Power(10, d - 1))
      && name[9 + d..] == ".shard"
  {
    hide DigitChars, Hex, Decimal, Power;
    var name, hex, dec := ShardFileName(stripe, shard), Hex(stripe, 8), Decimal(shard);
    HexIs(stripe, 8);
    DecimalIs(shard);
    assert name[..8] == hex && name[9..9 + |dec|] == dec && name[9 + |dec|..] == SUFFIX;
  }

  // ----- Parsing

  /** The value of a digit in either case, or 16. */
  function DigitValue(c: char): (d: nat)
    ensures d <= 16
  {
    if '0' <= c <= '9' then c as int - '0' as int
    else if 'a' <= c <= 'f' then c as int - 'a' as int + 10
    else if 'A' <= c <= 'F' then c as int - 'A' as int + 10
    else 16
  }

  /** How many leading characters are digits of the base, up to a limit. */
  function DigitRun(s: string, base: nat, limit: nat): (n: nat)
    ensures n <= |s| && n <= limit
    decreases |s|
  {
    if |s| == 0 || limit == 0 || DigitValue(s[0]) >= base then 0 else 1 + DigitRun(s[1..], base, limit - 1)
  }

  function DigitsValue(s: string, base: nat): nat {
    if |s| == 0 then 0 else DigitsValue(s[..|s| - 1], base) * base + DigitValue(s[|s| - 1])
  }

  /** Scans a number from the front of s, as Sscanf does; what follows it is not looked at. */
  function Scanned(s: string, base: nat, limit: nat): Result<nat> {
    var n := DigitRun(s, base, limit);
    if n == 0 then Err(BadFileName) else Ok(DigitsValue(s[..n], base))
  }

  /** Position of the first dash at or after i, or |s|. */
  function Dash(s: string, i: nat): (d: nat)
    requires i <= |s|
    ensures i <= d <= |s|
    ensures d < |s| ==> s[d] == '-'
    decreases |s| - i
  {
    if i == |s| || s[i] == '-' then i else Dash(s, i + 1)
  }

  predicate IsShardFileName(name: string) {
    |name| >= |SUFFIX| && name[|name| - |SUFFIX|..] == SUFFIX
  }

  /** The stripe and shard index that a shard file name carries. */
  function ParsedFileName(name: string): Result<(u32, u32)> {
    if !IsShardFileName(name) then Err(BadFileName)
    else
      var rest := name[..|name| - |SUFFIX|];
      var d := Dash(rest, 0);
      if d == |rest| || Dash(rest, d + 1) != |rest| then Err(BadFileName)
      else
        match (Scanned(rest[..d], 16, 8), Scanned(rest[d + 1..], 10, |rest|))
        case (Ok(stripe), Ok(shard)) =>
          if shard >= 0x1_0000_0000 then Err(BadFileName) else Ok((stripe % 0x1_0000_0000, shard))
        case _ => Err(BadFileName)
  }

  // ----- Parsing undoes formatting

  ghost predicate AllDigits(s: string, base: nat) { forall i :: 0 <= i < |s| ==> DigitValue(s[i]) < base && s[i] != '-' }

  lemma DigitBack(d: nat)
    requires d < 16
    ensures DigitValue(Digit(d)) == d && Digit(d) != '-'
  {
  }

  function Pow16(w: nat): nat { if w == 0 then 1 else 16 * Pow16(w - 1) }

  lemma {:induction false} HexBack(n: nat, width: nat)
    requires n < Pow16(width)
    ensures AllDigits(Hex(n, width), 16) && DigitsValue(Hex(n, width), 16) == n
  {
    hide Digit, DigitValue;
    if width > 0 {
      var s := Hex(n, width);
      HexBack(n / 16, width - 1);
      DigitBack(n % 16);
      assert s[..|s| - 1] == Hex(n / 16, width - 1);
    }
  }

  lemma {:induction false} DecimalBack(n: nat)
    ensures AllDigits(Decimal(n), 10) && DigitsValue(Decimal(n), 10) == n
  {
    hide Digit, DigitValue;
    var s := Decimal(n);
    if n < 10 {
      DigitBack(n);
      assert DigitsValue(s[..0], 10) == 0;
    } else {
      DecimalBack(n / 10);
      DigitBack(n % 10);
      assert s[..|s| - 1] == Decimal(n / 10);
    }
  }

  lemma {:induction false} RunOfDigits(s: string, base: nat, limit: nat)
    requires AllDigits(s, base) && |s| <= limit
    ensures DigitRun(s, base, limit) == |s|
    decreases |s|
  {
    if |s| > 0 {
      RunOfDigits(s[1..], base, limit - 1);
    }
  }

  lemma {:induction false} DashAt(s: string, i: nat, d: nat)
    requires i <= d <= |s| && (d < |s| ==> s[d] == '-')
    requires forall j :: i <= j < d ==> s[j] != '-'
    ensures Dash(s, i) == d
    decreases d - i
  {
    if i < d {
      DashAt(s, i + 1, d);
    }
  }

  lemma EightHexDigits()
    ensures Pow16(8) == 0x1_0000_0000
  {
    assert Pow16(4) == 0x1_0000;
    assert Pow16(8) == 0x1_0000 * Pow16(4);
  }

  /** For every pair of uint32 values, parsing the generated name gives them back. */
  lemma ParseGenerated(stripe: u32, shard: u32)
    ensures ParsedFileName(ShardFileName(stripe, shard)) == Ok((stripe, shard))
  {
    hide Hex, Decimal, DigitValue, DigitsValue, DigitRun;
    var hex, dec, name := Hex(stripe, 8), Decimal(shard), ShardFileName(stripe, shard);
    var rest := name[..|name| - |SUFFIX|];
    assert name[|name| - |SUFFIX|..] == SUFFIX;
    assert rest == hex + "-" + dec;
    EightHexDigits();
    HexBack(stripe, 8);
    DecimalBack(shard);
    DashAt(rest, 0, 8);
    DashAt(rest, 9, |rest|);
    assert rest[..8] == hex && rest[9..] == dec;
    RunOfDigits(hex, 16, 8);
    RunOfDigits(dec, 10, |rest|);
    assert hex[..8] == hex && dec[..|dec|] == dec;
  }

  lemma GeneratedNamesDiffer(a: (u32, u32), b: (u32, u32))
    requires ShardFileName(a.0, a.1) == ShardFileName(b.0, b.1)
    ensures a == b
  {
    hide ShardFileName, ParsedFileName;
    ParseGenerated(a.0, a.1);
    ParseGenerated(b.0, b.1);
  }

  lemma ShardNamesAreNotMarkers(stripe: u32, shard: u32)
    ensures IsShardFileName(ShardFileName(stripe, shard)) && !IsShardFileName(MARKER_NAME)
  {
    var name := ShardFileName(stripe, shard);
    assert name[|name| - |SUFFIX|..] == SUFFIX;
  }
}
