/** Polynomials over the 256-element field, and interpolation through distinct points. */
module Polynomial {
  import opened Bytes
  import opened Gf256

  /** Value at x of the polynomial with coefficients p, constant term first. */
  function Eval(p: seq<byte>, x: byte): byte
    decreases |p|
  {
    if |p| == 0 then ZERO else Add(p[0], Mul(x, Eval(p[1..], x)))
  }

  function EvalAll(p: seq<byte>, xs: seq<byte>): seq<byte> { seq(|xs|, i requires 0 <= i < |xs| => Eval(p, xs[i])) }

  ghost predicate Distinct(xs: seq<byte>) { forall i, j :: 0 <= i < j < |xs| ==> xs[i] != xs[j] }

  /** Divided differences against the first point. */
  function Slopes(xs: seq<byte>, ys: seq<byte>): (r: seq<byte>)
    requires |xs| == |ys| > 0
    ensures |r| == |xs| - 1
  {
    seq(|xs| - 1, i requires 0 <= i < |xs| - 1 => Mul(Add(ys[i + 1], ys[0]), Inv(Add(xs[i + 1], xs[0]))))
  }

  /** Value at x of the polynomial of degree below |xs| through the points (xs[i], ys[i]). */
  function At(xs: seq<byte>, ys: seq<byte>, x: byte): byte
    requires |xs| == |ys|
    decreases |xs|
  {
    if |xs| == 0 then ZERO
    else Add(ys[0], Mul(Add(x, xs[0]), At(xs[1..], Slopes(xs, ys), x)))
  }

  // ----- Field identities

  lemma AddZeroMeansEqual(a: byte, b: byte)
    requires Add(a, b) == ZERO
    ensures a == b
  {
    hide Add;
    AddAssoc(a, b, b);
    AddSelf(a);
    AddSelf(b);
  }

  lemma AddCancel(a: byte, b: byte)
    ensures Add(a, Add(b, a)) == b && Add(a, Add(a, b)) == b
  {
    hide Add;
    AddComm(a, b);
    AddAssoc(a, a, b);
    AddSelf(a);
    AddSelf(b);
  }

  lemma MulDivide(d: byte, q: byte)
    requires d != ZERO
    ensures Mul(Mul(d, q), Inv(d)) == q && Mul(d, Mul(q, Inv(d))) == q
  {
    hide Mul, Inv;
    MulComm(d, q);
    MulAssoc(q, d, Inv(d));
    MulInv(d);
    MulOne(q);
    MulAssoc(d, q, Inv(d));
  }

  // ----- Division by a linear factor

  /** The quotient of p by (x - r). */
  function Quotient(p: seq<byte>, r: byte): (q: seq<byte>)
    ensures |q| == if |p| == 0 then 0 else |p| - 1
    decreases |p|
  {
    if |p| <= 1 then [] else [Eval(p[1..], r)] + Quotient(p[1..], r)
  }

  /** One step of the division: (c + x*px) - (c + r*pr) when px - pr == (x - r)*q. */
  lemma DivisionStep(c: byte, x: byte, r: byte, px: byte, pr: byte, q: byte)
    requires Add(px, pr) == Mul(Add(x, r), q)
    ensures Add(Add(c, Mul(x, px)), Add(c, Mul(r, pr))) == Mul(Add(x, r), Add(pr, Mul(x, q)))
  {
    hide Add, Mul;
    var d := Add(x, r);
    var xpr := Mul(x, pr);
    calc {
      Add(Add(c, Mul(x, px)), Add(c, Mul(r, pr)));
      { AddSwap(c, Mul(x, px), c, Mul(r, pr)); AddSelf(c); AddSelf(Add(Mul(x, px), Mul(r, pr))); }
      Add(Mul(x, px), Mul(r, pr));
      { AddSelf(xpr); AddSelf(Add(Mul(x, px), Mul(r, pr))); AddSwap(Mul(x, px), Mul(r, pr), xpr, xpr); }
      Add(Add(Mul(x, px), xpr), Add(Mul(r, pr), xpr));
      { MulAdd(x, px, pr); MulAdd(pr, r, x); AddComm(r, x); }
      Add(Mul(x, Mul(d, q)), Mul(d, pr));
      { MulAssoc(x, d, q); MulComm(x, d); MulAssoc(d, x, q); }
      Add(Mul(d, Mul(x, q)), Mul(d, pr));
      { MulAdd(d, Mul(x, q), pr); AddComm(Mul(x, q), pr); }
      Mul(d, Add(pr, Mul(x, q)));
    }
  }

  lemma {:induction false} Division(p: seq<byte>, x: byte, r: byte)
    ensures Add(Eval(p, x), Eval(p, r)) == Mul(Add(x, r), Eval(Quotient(p, r), x))
    decreases |p|
  {
    hide Add, Mul;
    if |p| == 0 {
      AddSelf(ZERO);
      MulZero(Add(x, r));
    } else if |p| == 1 {
      AddSelf(Eval(p, x));
      MulZero(x);
      MulZero(r);
      MulZero(Add(x, r));
    } else {
      Division(p[1..], x, r);
      var q := Quotient(p, r);
      assert q[1..] == Quotient(p[1..], r);
      DivisionStep(p[0], x, r, Eval(p[1..], x), Eval(p[1..], r), Eval(q[1..], x));
    }
  }

  // ----- Interpolation is exact on polynomials of low degree

  lemma {:induction false} AtOfPolynomial(zs: seq<byte>, p: seq<byte>, x: byte)
    requires Distinct(zs) && |p| <= |zs|
    ensures At(zs, EvalAll(p, zs), x) == Eval(p, x)
    decreases |zs|
  {
    hide Add, Mul, Inv;
    if |zs| == 0 {
    } else {
      var ys, rest, q := EvalAll(p, zs), zs[1..], Quotient(p, zs[0]);
      forall i | 0 <= i < |rest|
        ensures Slopes(zs, ys)[i] == EvalAll(q, rest)[i]
      {
        Division(p, rest[i], zs[0]);
        var d := Add(rest[i], zs[0]);
        if d == ZERO {
          AddZeroMeansEqual(rest[i], zs[0]);
          assert false;
        } else {
          MulDivide(d, Eval(q, rest[i]));
        }
      }
      assert Slopes(zs, ys) == EvalAll(q, rest);
      AtOfPolynomial(rest, q, x);
      Division(p, x, zs[0]);
      AddCancel(Eval(p, zs[0]), Eval(p, x));
    }
  }

  /** Interpolation goes through its points. */
  lemma {:induction false} AtOwnPoint(xs: seq<byte>, ys: seq<byte>, i: nat)
    requires |xs| == |ys| && Distinct(xs) && i < |xs|
    ensures At(xs, ys, xs[i]) == ys[i]
    decreases |xs|
  {
    hide Add, Mul, Inv;
    if i == 0 {
      AddSelf(xs[0]);
      MulZero(At(xs[1..], Slopes(xs, ys), xs[0]));
      AddSelf(ys[0]);
    } else {
      AtOwnPoint(xs[1..], Slopes(xs, ys), i - 1);
      var d := Add(xs[i], xs[0]);
      if d == ZERO {
        AddZeroMeansEqual(xs[i], xs[0]);
        assert false;
      } else {
        MulDivide(d, Add(ys[i], ys[0]));
        AddCancel(ys[0], ys[i]);
      }
    }
  }

  // ----- Interpolants are polynomials

  /** Coefficients of c + (x - r) * q. */
  function LinearPlus(q: seq<byte>, r: byte, c: byte): (p: seq<byte>)
    ensures |p| == |q| + 1
    decreases |q|
  {
    if |q| == 0 then [c] else [Add(c, Mul(r, q[0]))] + LinearPlus(q[1..], r, q[0])
  }

  lemma {:induction false} EvalLinearPlus(q: seq<byte>, r: byte, c: byte, x: byte)
    ensures Eval(LinearPlus(q, r, c), x) == Add(c, Mul(Add(x, r), Eval(q, x)))
    decreases |q|
  {
    hide Add, Mul;
    var p := LinearPlus(q, r, c);
    if |q| == 0 {
      assert Eval(p[1..], x) == ZERO;
      MulZero(x);
      MulZero(Add(x, r));
    } else {
      var q0, v := q[0], Eval(q[1..], x);
      var d := Add(x, r);
      assert p[1..] == LinearPlus(q[1..], r, q0);
      EvalLinearPlus(q[1..], r, q0, x);
      calc {
        Eval(p, x);
        Add(Add(c, Mul(r, q0)), Mul(x, Add(q0, Mul(d, v))));
        { MulAdd(x, q0, Mul(d, v)); AddAssoc(c, Mul(r, q0), Add(Mul(x, q0), Mul(x, Mul(d, v))));
          AddAssoc(Mul(r, q0), Mul(x, q0), Mul(x, Mul(d, v))); }
        Add(c, Add(Add(Mul(r, q0), Mul(x, q0)), Mul(x, Mul(d, v))));
        { MulAdd(q0, r, x); AddComm(r, x); MulAssoc(x, d, v); MulComm(x, d); MulAssoc(d, x, v); }
        Add(c, Add(Mul(d, q0), Mul(d, Mul(x, v))));
        { MulAdd(d, q0, Mul(x, v)); }
        Add(c, Mul(d, Eval(q, x)));
      }
    }
  }

  function Newton(xs: seq<byte>, ys: seq<byte>): (p: seq<byte>)
    requires |xs| == |ys|
    ensures |p| == |xs|
    decreases |xs|
  {
    if |xs| == 0 then [] else LinearPlus(Newton(xs[1..], Slopes(xs, ys)), xs[0], ys[0])
  }

  lemma {:induction false} EvalNewton(xs: seq<byte>, ys: seq<byte>, x: byte)
    requires |xs| == |ys|
    ensures Eval(Newton(xs, ys), x) == At(xs, ys, x)
    decreases |xs|
  {
    hide Add, Mul, Inv;
    if |xs| == 0 {
    } else {
      EvalNewton(xs[1..], Slopes(xs, ys), x);
      EvalLinearPlus(Newton(xs[1..], Slopes(xs, ys)), xs[0], ys[0], x);
    }
  }

  /** The interpolant through |xs| or more distinct points of an interpolant is that interpolant. */
  lemma AnyPoints(xs: seq<byte>, ys: seq<byte>, zs: seq<byte>, vs: seq<byte>, x: byte)
    requires |xs| == |ys| <= |zs| == |vs| && Distinct(zs)
    requires forall i :: 0 <= i < |zs| ==> vs[i] == At(xs, ys, zs[i])
    ensures At(zs, vs, x) == At(xs, ys, x)
  {
    hide At, Newton, Eval;
    var p := Newton(xs, ys);
    forall i | 0 <= i < |zs|
      ensures vs[i] == EvalAll(p, zs)[i]
    {
      EvalNewton(xs, ys, zs[i]);
    }
    assert vs == EvalAll(p, zs);
    AtOfPolynomial(zs, p, x);
    EvalNewton(xs, ys, x);
  }
}
