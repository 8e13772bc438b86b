/** The field of 256 elements in which shards are computed: bytes as polynomials over bits. */
module Gf256 {
  import opened Bytes

  /** Addition and subtraction: bitwise exclusive or. */
  function Add(a: byte, b: byte): byte {
    Byte(a.b0 != b.b0, a.b1 != b.b1, a.b2 != b.b2, a.b3 != b.b3,
         a.b4 != b.b4, a.b5 != b.b5, a.b6 != b.b6, a.b7 != b.b7)
  }

  /** Multiplication by x modulo x^8 + x^4 + x^3 + x^2 + 1 (0x11d). */
  function Twice(a: byte): byte {
    Byte(a.b7, a.b0, a.b1 != a.b7, a.b2 != a.b7, a.b3 != a.b7, a.b4, a.b5, a.b6)
  }

  function Pick(c: bool, a: byte): byte { if c then a else ZERO }

  /** a times the polynomial with coefficients s, by Horner's rule. */
  function MulBy(a: byte, s: seq<bool>): byte
    decreases |s|
  {
    if |s| == 0 then ZERO else Add(Pick(s[0], a), Twice(MulBy(a, s[1..])))
  }

  /** Multiplication. */
  function Mul(a: byte, b: byte): byte { MulBy(a, BitsOf(b)) }

  // ----- Addition

  lemma AddComm(a: byte, b: byte)
    ensures Add(a, b) == Add(b, a)
  {
  }

  lemma AddAssoc(a: byte, b: byte, c: byte)
    ensures Add(Add(a, b), c) == Add(a, Add(b, c))
  {
  }

  lemma AddSelf(a: byte)
    ensures Add(a, a) == ZERO && Add(a, ZERO) == a && Add(ZERO, a) == a
  {
  }

  lemma AddSwap(p: byte, q: byte, r: byte, s: byte)
    ensures Add(Add(p, q), Add(r, s)) == Add(Add(p, r), Add(q, s))
  {
  }

  lemma TwiceAdd(a: byte, b: byte)
    ensures Twice(Add(a, b)) == Add(Twice(a), Twice(b))
  {
  }

  lemma PickAdd(c: bool, a: byte, b: byte)
    ensures Pick(c, Add(a, b)) == Add(Pick(c, a), Pick(c, b))
  {
  }

  lemma PickTwice(c: bool, a: byte)
    ensures Pick(c, Twice(a)) == Twice(Pick(c, a))
  {
  }

  // ----- Multiplication

  lemma {:induction false} MulByAdd(a: byte, b: byte, s: seq<bool>)
    ensures MulBy(Add(a, b), s) == Add(MulBy(a, s), MulBy(b, s))
    decreases |s|
  {
    hide Add, Twice, Pick;
    if |s| == 0 {
      AddSelf(ZERO);
    } else {
      var x, y := MulBy(a, s[1..]), MulBy(b, s[1..]);
      MulByAdd(a, b, s[1..]);
      PickAdd(s[0], a, b);
      TwiceAdd(x, y);
      AddSwap(Pick(s[0], a), Pick(s[0], b), Twice(x), Twice(y));
    }
  }

  lemma {:induction false} MulByTwice(a: byte, s: seq<bool>)
    ensures MulBy(Twice(a), s) == Twice(MulBy(a, s))
    decreases |s|
  {
    if |s| == 0 {
    } else {
      hide Add, Twice, Pick;
      MulByTwice(a, s[1..]);
      PickTwice(s[0], a);
      TwiceAdd(Pick(s[0], a), Twice(MulBy(a, s[1..])));
    }
  }

  lemma {:induction false} MulByPick(c: bool, a: byte, s: seq<bool>)
    ensures MulBy(Pick(c, a), s) == Pick(c, MulBy(a, s))
    decreases |s|
  {
    if !c {
      hide Add, Twice;
      MulByZero(s);
    }
  }

  lemma {:induction false} MulByZero(s: seq<bool>)
    ensures MulBy(ZERO, s) == ZERO
    decreases |s|
  {
    if |s| == 0 {
    } else {
      MulByZero(s[1..]);
    }
  }

  lemma MulByCons(a: byte, c: bool, s: seq<bool>)
    ensures MulBy(a, [c] + s) == Add(Pick(c, a), Twice(MulBy(a, s)))
  {
    assert ([c] + s)[1..] == s;
  }

  /** While the top bit is clear, a Horner step over ONE shifts the next coefficient in. */
  lemma HornerShift(c: bool, v: byte)
    requires !v.b7
    ensures Add(Pick(c, ONE), Twice(v)) == Byte(c, v.b0, v.b1, v.b2, v.b3, v.b4, v.b5, v.b6)
  {
  }

  /** Adds coefficient c below those of v, which MulBy has already gathered from s. */
  lemma GatherStep(c: bool, s: seq<bool>, v: byte)
    requires MulBy(ONE, s) == v && !v.b7
    ensures MulBy(ONE, [c] + s) == Byte(c, v.b0, v.b1, v.b2, v.b3, v.b4, v.b5, v.b6)
  {
    hide Add, Twice, Pick, MulBy;
    MulByCons(ONE, c, s);
    HornerShift(c, v);
  }

  function PadTo8(s: seq<bool>): (r: seq<bool>)
    requires |s| <= 8
    ensures |r| == 8
  {
    s + [false, false, false, false, false, false, false, false][|s|..]
  }

  lemma PadShift(s: seq<bool>)
    requires 0 < |s| <= 8
    ensures var v := OfBits(PadTo8(s[1..]));
      !v.b7 && OfBits(PadTo8(s)) == Byte(s[0], v.b0, v.b1, v.b2, v.b3, v.b4, v.b5, v.b6)
  {
    var r, w := PadTo8(s), PadTo8(s[1..]);
    assert r[0] == s[0] && w[7] == false;
    assert forall i :: 0 <= i < 7 ==> r[i + 1] == w[i];
    assert r[1] == w[0] && r[2] == w[1] && r[3] == w[2] && r[4] == w[3] && r[5] == w[4] && r[6] == w[5] && r[7] == w[6];
  }

  lemma {:induction false} Gather(s: seq<bool>)
    requires |s| <= 8
    ensures MulBy(ONE, s) == OfBits(PadTo8(s))
    decreases |s|
  {
    if |s| == 0 {
    } else {
      hide Add, Twice, Pick, MulBy, PadTo8, OfBits;
      Gather(s[1..]);
      PadShift(s);
      GatherStep(s[0], s[1..], OfBits(PadTo8(s[1..])));
      assert s == [s[0]] + s[1..];
    }
  }

  lemma MulOneLeft(a: byte)
    ensures Mul(ONE, a) == a
  {
    hide MulBy;
    Gather(BitsOf(a));
    assert PadTo8(BitsOf(a)) == BitsOf(a);
  }

  lemma {:induction false} MulBySwap(a: byte, s: seq<bool>)
    ensures MulBy(a, s) == MulBy(MulBy(ONE, s), BitsOf(a))
    decreases |s|
  {
    hide Add, Twice, Pick;
    if |s| == 0 {
      MulByZero(BitsOf(a));
    } else {
      var v := MulBy(ONE, s[1..]);
      MulBySwap(a, s[1..]);
      MulByTwice(v, BitsOf(a));
      MulByAdd(Pick(s[0], ONE), Twice(v), BitsOf(a));
      MulByPick(s[0], ONE, BitsOf(a));
      MulOneLeft(a);
    }
  }

  lemma MulComm(a: byte, b: byte)
    ensures Mul(a, b) == Mul(b, a)
  {
    hide MulBy;
    MulBySwap(a, BitsOf(b));
    MulOneLeft(b);
  }

  lemma {:induction false} MulByCommute(a: byte, s: seq<bool>, t: seq<bool>)
    ensures MulBy(MulBy(a, s), t) == MulBy(MulBy(a, t), s)
    decreases |s|
  {
    hide Add, Twice, Pick;
    if |s| == 0 {
      MulByZero(t);
    } else {
      var v := MulBy(a, s[1..]);
      MulByCommute(a, s[1..], t);
      MulByAdd(Pick(s[0], a), Twice(v), t);
      MulByPick(s[0], a, t);
      MulByTwice(v, t);
    }
  }

  lemma MulAssoc(a: byte, b: byte, c: byte)
    ensures Mul(Mul(a, b), c) == Mul(a, Mul(b, c))
  {
    hide MulBy;
    MulComm(a, b);
    MulByCommute(b, BitsOf(a), BitsOf(c));
    MulComm(Mul(b, c), a);
  }

  lemma MulAdd(a: byte, b: byte, c: byte)
    ensures Mul(a, Add(b, c)) == Add(Mul(a, b), Mul(a, c))
    ensures Mul(Add(b, c), a) == Add(Mul(b, a), Mul(c, a))
  {
    hide Add, MulBy;
    MulComm(a, Add(b, c));
    MulComm(a, b);
    MulComm(a, c);
    MulByAdd(b, c, BitsOf(a));
  }

  lemma MulZero(a: byte)
    ensures Mul(a, ZERO) == ZERO && Mul(ZERO, a) == ZERO
  {
    MulByZero(BitsOf(a));
    MulComm(a, ZERO);
  }

  lemma MulOne(a: byte)
    ensures Mul(a, ONE) == a && Mul(ONE, a) == a
  {
    MulOneLeft(a);
    MulComm(a, ONE);
  }

  // ----- Division: squaring is a linear map, and its eighth power is the identity.

  /** Squaring, as the linear map it is: the sum of the a_i x^(2i), reduced. */
  function Square(a: byte): byte {
    Byte(((a.b0 != a.b4) != a.b6) != a.b7,
         a.b7,
         ((a.b1 != a.b4) != a.b5) != a.b6,
         a.b4 != a.b6,
         ((a.b2 != a.b4) != a.b5) != a.b7,
         a.b5,
         (a.b3 != a.b5) != a.b6,
         a.b6)
  }

  /** Squaring four times over. */
  function Power16(a: byte): byte {
    Byte(((((a.b0 != a.b2) != a.b4) != a.b5) != a.b6) != a.b7,
         a.b3 != a.b4,
         (((a.b1 != a.b2) != a.b3) != a.b4) != a.b5,
         (((a.b1 != a.b2) != a.b4) != a.b5) != a.b6,
         ((a.b2 != a.b4) != a.b5) != a.b6,
         a.b5,
         (((a.b1 != a.b3) != a.b4) != a.b5) != a.b6,
         ((a.b2 != a.b5) != a.b6) != a.b7)
  }

  lemma SquareAdd(a: byte, b: byte)
    ensures Square(Add(a, b)) == Add(Square(a), Square(b))
  {
  }

  lemma SquareTwice(a: byte)
    ensures Square(Twice(a)) == Twice(Twice(Square(a)))
  {
  }

  lemma SquareHorner(c: bool, v: byte)
    ensures Square(Add(Pick(c, ONE), Twice(v))) == Add(Pick(c, ONE), Twice(Twice(Square(v))))
  {
    assert Square(Pick(c, ONE)) == Pick(c, ONE);
    hide Square, Add, Twice, Pick;
    SquareAdd(Pick(c, ONE), Twice(v));
    SquareTwice(v);
  }

  lemma SquareFixes(e: byte)
    requires Square(e) == e
    ensures e == ZERO || e == ONE
  {
  }

  lemma Square4(a: byte)
    ensures Square(Square(Square(Square(a)))) == Power16(a)
  {
  }

  lemma Power16Twice(a: byte)
    ensures Power16(Power16(a)) == a
  {
  }

  lemma SquareOfSum(u: byte, w: byte)
    ensures Mul(Add(u, w), Add(u, w)) == Add(Mul(u, u), Mul(w, w))
  {
    hide Add, Mul;
    MulAdd(Add(u, w), u, w);
    MulAdd(u, u, w);
    MulAdd(w, u, w);
    MulComm(u, w);
    var x := Mul(u, w);
    AddSwap(Mul(u, u), x, x, Mul(w, w));
    AddAssoc(Mul(u, u), x, Add(x, Mul(w, w)));
    AddAssoc(x, x, Mul(w, w));
    AddSelf(x);
    AddSelf(Mul(w, w));
  }

  lemma MulTwice(a: byte, b: byte)
    ensures Mul(Twice(a), Twice(b)) == Twice(Twice(Mul(a, b)))
  {
    hide Twice, MulBy;
    MulByTwice(a, BitsOf(Twice(b)));
    MulComm(a, Twice(b));
    MulByTwice(b, BitsOf(a));
    MulComm(a, b);
  }

  lemma {:induction false} SquareGathered(s: seq<bool>)
    ensures var v := MulBy(ONE, s); Mul(v, v) == Square(v)
    decreases |s|
  {
    hide Add, Twice, Pick, Square, Mul;
    if |s| == 0 {
      MulZero(ZERO);
      SquareHorner(false, ZERO);
      SquareOfZero();
    } else {
      var v, c := MulBy(ONE, s[1..]), Pick(s[0], ONE);
      SquareGathered(s[1..]);
      SquareOfSum(c, Twice(v));
      MulTwice(v, v);
      SquareHorner(s[0], v);
      SquareOfPick(s[0]);
    }
  }

  lemma SquareOfZero()
    ensures Square(ZERO) == ZERO
  {
  }

  lemma SquareOfPick(c: bool)
    ensures Mul(Pick(c, ONE), Pick(c, ONE)) == Pick(c, ONE)
  {
    hide Mul;
    MulOne(ONE);
    MulZero(ZERO);
  }

  lemma SquareIsMul(a: byte)
    ensures Mul(a, a) == Square(a)
  {
    hide Square, MulBy;
    SquareGathered(BitsOf(a));
    MulOneLeft(a);
  }

  lemma SquareMul(a: byte, b: byte)
    ensures Square(Mul(a, b)) == Mul(Square(a), Square(b))
  {
    hide Square, Mul;
    var ab := Mul(a, b);
    SquareIsMul(ab);
    SquareIsMul(a);
    SquareIsMul(b);
    MulAssoc(a, b, ab);
    MulAssoc(a, a, Mul(b, b));
    MulAssoc(b, a, b);
    MulAssoc(a, b, b);
    MulComm(a, b);
  }

  /** The product of a, a^2, a^4, ... over n factors. */
  function Tower(a: byte, n: nat): byte
    decreases n
  {
    if n == 0 then ONE else Mul(a, Tower(Square(a), n - 1))
  }

  function Squares(a: byte, n: nat): byte
    decreases n
  {
    if n == 0 then a else Squares(Square(a), n - 1)
  }

  lemma {:induction false} TowerLast(a: byte, n: nat)
    ensures Tower(a, n + 1) == Mul(Tower(a, n), Squares(a, n))
    decreases n
  {
    hide Square, Mul;
    if n == 0 {
      MulOne(a);
    } else {
      TowerLast(Square(a), n - 1);
      MulAssoc(a, Tower(Square(a), n - 1), Squares(Square(a), n - 1));
    }
  }

  lemma {:induction false} SquareTower(a: byte, n: nat)
    ensures Square(Tower(a, n)) == Tower(Square(a), n)
    decreases n
  {
    hide Square, Mul;
    if n == 0 {
      SquareIsMul(ONE);
      MulOne(ONE);
    } else {
      SquareMul(a, Tower(Square(a), n - 1));
      SquareTower(Square(a), n - 1);
    }
  }

  /** a^254. */
  function Inv(a: byte): byte { Tower(Square(a), 7) }

  lemma SevenSquares(a: byte)
    ensures Squares(Square(a), 7) == a
  {
    hide Square, Power16;
    Square4(a);
    Square4(Power16(a));
    Power16Twice(a);
    assert Squares(Square(a), 7) == Squares(Power16(a), 4);
    assert Squares(Power16(a), 4) == Power16(Power16(a));
  }

  lemma MulInv(a: byte)
    requires a != ZERO
    ensures Mul(a, Inv(a)) == ONE
  {
    hide Square, Mul, Tower;
    var e := Mul(a, Inv(a));
    assert e == Tower(a, 8) by { TowerStep(a, 7); }
    SquareTower(a, 8);
    TowerLast(Square(a), 7);
    SevenSquares(a);
    MulComm(a, Inv(a));
    assert Square(e) == e;
    SquareFixes(e);
    if e == ZERO {
      TowerTop(a, 8);
      assert Squares(a, 8) == Squares(Square(a), 7);
      MulZero(a);
    }
  }

  lemma TowerStep(a: byte, n: nat)
    ensures Tower(a, n + 1) == Mul(a, Tower(Square(a), n))
  {
  }

  lemma {:induction false} TowerTop(a: byte, n: nat)
    ensures Mul(a, Tower(a, n)) == Squares(a, n)
    decreases n
  {
    hide Square, Mul;
    if n == 0 {
      MulOne(a);
    } else {
      var t := Tower(Square(a), n - 1);
      TowerTop(Square(a), n - 1);
      MulAssoc(a, a, t);
      SquareIsMul(a);
    }
  }
}
