/** Arithmetic vocabulary shared by the valuation model.

    Prices are exact reals. A price that goes through a square root is carried
    together with a witness of its positive root, and a floating-point division
    whose denominator may be zero yields either a finite value or `NonFinite`
    (numpy returns inf or nan there rather than raising).
 */
module Arith {

  /** The outcome of a computation that divides: a finite value, or the
      inf/nan that a float64 division by zero produces. */
  datatype Maybe<+T> = Finite(value: T) | NonFinite

  /** Float64 division `a / b`, exact when `b` is non-zero. */
  function Div(a: real, b: real): (r: Maybe<real>)
    ensures r.Finite? <==> b != 0.0
    ensures r.Finite? ==> r.value * b == a
  {
    if b == 0.0 then NonFinite else Finite(a / b)
  }

  /** A price `p` together with its square root `s`. */
  datatype Rooted = Rooted(p: real, s: real) {
    /** `s` is the positive square root of `p` (so `p` is positive too). */
    predicate Valid() {
      s > 0.0 && s * s == p
    }
  }

  /** Facts about `1/√p` used throughout: it is positive, it is the inverse of
      `√p`, and `p * (1/√p) == √p`. */
  lemma InverseRoot(a: Rooted)
    requires a.Valid()
    ensures a.p > 0.0
    ensures 1.0 / a.s > 0.0
    ensures a.s * (1.0 / a.s) == 1.0
    ensures a.p * (1.0 / a.s) == a.s
  {
    calc {
      a.p * (1.0 / a.s);
      (a.s * a.s) * (1.0 / a.s);
      a.s * (a.s * (1.0 / a.s));
      a.s;
    }
  }

  /** For positive roots, the order of the roots is the order of the prices. */
  lemma RootOrder(a: Rooted, b: Rooted)
    requires a.Valid() && b.Valid()
    ensures a.s < b.s <==> a.p < b.p
    ensures a.s <= b.s <==> a.p <= b.p
    ensures a.s == b.s <==> a.p == b.p
  {
    if a.s < b.s {
      assert a.s * a.s < a.s * b.s;
      assert a.s * b.s < b.s * b.s;
    } else if b.s < a.s {
      assert b.s * b.s < b.s * a.s;
      assert b.s * a.s < a.s * a.s;
    }
  }

  /** For positive roots, taking the reciprocal reverses the order. */
  lemma InverseRootOrder(a: Rooted, b: Rooted)
    requires a.Valid() && b.Valid()
    ensures a.p <= b.p <==> 1.0 / b.s <= 1.0 / a.s
    ensures a.p < b.p <==> 1.0 / b.s < 1.0 / a.s
  {
    RootOrder(a, b);
    InverseRoot(a);
    InverseRoot(b);
    var ia, ib := 1.0 / a.s, 1.0 / b.s;
    // ib - ia == (a.s - b.s) * ia * ib, and ia * ib > 0
    assert ib - ia == (a.s - b.s) * (ia * ib) by {
      calc {
        (a.s - b.s) * (ia * ib);
        (a.s * ia) * ib - (b.s * ib) * ia;
        ib - ia;
      }
    }
    assert ia * ib > 0.0;
  }

  /** A square is never negative. */
  lemma SquareNonNeg(d: real)
    ensures d * d >= 0.0
  {
    if d < 0.0 {
      var e := -d;
      NonNegProduct(e, e);
      assert d * d == e * e;
    } else {
      NonNegProduct(d, d);
    }
  }

  /** A product is zero only when one of its factors is. */
  lemma ZeroProduct(a: real, b: real)
    requires a * b == 0.0
    ensures a == 0.0 || b == 0.0
  {
    if a != 0.0 {
      assert b == (a * b) / a;
    }
  }

  /** Multiplying by a non-negative factor keeps a non-strict order. */
  lemma MulLe(a: real, b: real, c: real)
    requires a <= b && c >= 0.0
    ensures a * c <= b * c
  {
    assert b * c - a * c == (b - a) * c;
  }

  /** A product of non-negative factors is non-negative. */
  lemma NonNegProduct(a: real, b: real)
    requires a >= 0.0 && b >= 0.0
    ensures a * b >= 0.0
  {
  }

  /** If `q` lies between `sd` and `sp` (all positive) then
      `(q - sd) * (sp² - sd * q) >= 0`. */
  lemma BetweenProduct(q: real, sd: real, sp: real)
    requires q > 0.0 && sd > 0.0 && sp > 0.0
    requires sd <= q <= sp || sp <= q <= sd
    ensures (q - sd) * (sp * sp - sd * q) >= 0.0
  {
    assert sp * q == q * sp;
    if sd <= q <= sp {
      MulLe(sd, sp, q);
      MulLe(q, sp, sp);
      var lo, mid, hi := sd * q, sp * q, sp * sp;
      assert lo <= mid <= hi;
      NonNegProduct(q - sd, hi - lo);
    } else {
      MulLe(sp, sd, q);
      MulLe(sp, q, sp);
      assert sp * sp <= sd * q;
      NonNegProduct(sd - q, sd * q - sp * sp);
      assert (q - sd) * (sp * sp - sd * q) == (sd - q) * (sd * q - sp * sp);
    }
  }
}
