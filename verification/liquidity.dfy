/** Concentrated-liquidity valuation of a single position with price bounds
    `[Pl, Pu]`, as the dashboard computes it (backtestengine.py:19-60).

    Prices are quoted in token Y per token X; a position holds `x` of X and
    `y` of Y and is worth `x * P + y` at price `P`.
 */
module Liquidity {
  import opened Arith

  /** Token quantities `(x, y)` of a position. */
  datatype Tokens = Tokens(x: real, y: real)

  /** A position: its liquidity constant and the tokens it held at deposit. */
  datatype Position = Position(L: real, x0: real, y0: real)

  /** The three prices a position is built from all carry a root witness. */
  predicate Rooted3(P: Rooted, Pl: Rooted, Pu: Rooted) {
    P.Valid() && Pl.Valid() && Pu.Valid()
  }

  /** `Pl <= P <= Pu`. */
  predicate Within(P: Rooted, Pl: Rooted, Pu: Rooted) {
    Pl.p <= P.p <= Pu.p
  }

  /** Value, in Y, of holding `x0` of X and `y0` of Y at price `P` (`V_HODL`). */
  function VHODL(P: real, x0: real, y0: real): real {
    x0 * P + y0
  }

  /** Holding no negative amounts at a non-negative price is worth nothing
      negative; at a positive price it is worth nothing exactly when nothing
      is held, which is when the IL division has no finite result. */
  lemma HodlSign(P: real, x0: real, y0: real)
    requires x0 >= 0.0 && y0 >= 0.0
    ensures P >= 0.0 ==> VHODL(P, x0, y0) >= 0.0
    ensures P > 0.0 ==> (VHODL(P, x0, y0) == 0.0 <==> x0 == 0.0 && y0 == 0.0)
  {
    if P >= 0.0 {
      NonNegProduct(x0, P);
      if VHODL(P, x0, y0) == 0.0 {
        ZeroProduct(x0, P);
      }
    }
  }

  /** Token quantities implied by liquidity `L` at price `P` (`tokens_from_L`),
      without clamping. */
  function TokensFromL(L: real, P: Rooted, Pl: Rooted, Pu: Rooted): (t: Tokens)
    requires Rooted3(P, Pl, Pu)
    ensures L >= 0.0 && Within(P, Pl, Pu) ==> t.x >= 0.0 && t.y >= 0.0
  {
    InverseRootOrder(P, Pu);
    RootOrder(Pl, P);
    Tokens(L * (1.0 / P.s - 1.0 / Pu.s), L * (P.s - Pl.s))
  }

  /** Value at `P` of the tokens of one unit of liquidity:
      `P * (1/√P - 1/√Pu) + (√P - √Pl)`, the denominator of `compute_L`
      (`TokensLinear` states that it is that value). Strictly inside the range
      it is positive, so `compute_L` divides by a positive number. */
  function UnitValue(P: Rooted, Pl: Rooted, Pu: Rooted): (r: real)
    requires Rooted3(P, Pl, Pu)
    ensures Pl.p < P.p < Pu.p ==> r > 0.0
  {
    InverseRootOrder(P, Pu);
    RootOrder(Pl, P);
    InverseRoot(P);
    var a, b := 1.0 / P.s - 1.0 / Pu.s, P.s - Pl.s;
    assert Pl.p < P.p < Pu.p ==> P.p * a > 0.0 && b > 0.0;
    P.p * a + b
  }

  /** Liquidity is linear: the tokens of `L` are worth `L` times the value of
      the tokens of unit liquidity. */
  lemma TokensLinear(L: real, P: Rooted, Pl: Rooted, Pu: Rooted)
    requires Rooted3(P, Pl, Pu)
    ensures var u := TokensFromL(1.0, P, Pl, Pu);
            VHODL(P.p, u.x, u.y) == UnitValue(P, Pl, Pu)
    ensures var t := TokensFromL(L, P, Pl, Pu);
            VHODL(P.p, t.x, t.y) == L * UnitValue(P, Pl, Pu)
  {
    var a, b := 1.0 / P.s - 1.0 / Pu.s, P.s - Pl.s;
    assert (L * a) * P.p + L * b == L * (P.p * a + b);
  }

  /** Liquidity for a deposit worth `V` at price `P` (`compute_L`): the
      result is finite exactly when unit liquidity has non-zero value at `P`,
      and then the tokens of the returned liquidity are worth exactly `V`. */
  function ComputeL(P: Rooted, Pl: Rooted, Pu: Rooted, V: real): (r: Maybe<real>)
    requires Rooted3(P, Pl, Pu)
    ensures r.Finite? <==> UnitValue(P, Pl, Pu) != 0.0
    ensures r.Finite? ==>
              var t := TokensFromL(r.value, P, Pl, Pu);
              VHODL(P.p, t.x, t.y) == V
  {
    var A := 1.0 / P.s - 1.0 / Pu.s;
    var B := P.s - Pl.s;
    var r := Div(V, P.p * A + B);
    if r.Finite? then TokensLinear(r.value, P, Pl, Pu); r else r
  }

  /** With `0 < Pl < P < Pu` and `V > 0` the denominator of `compute_L` is
      positive, so the liquidity is finite and positive. */
  lemma ComputeLPositive(P: Rooted, Pl: Rooted, Pu: Rooted, V: real)
    requires Rooted3(P, Pl, Pu)
    requires Pl.p < P.p < Pu.p && V > 0.0
    ensures ComputeL(P, Pl, Pu, V).Finite?
    ensures ComputeL(P, Pl, Pu, V).value > 0.0
  {
    InverseRootOrder(P, Pu);
    RootOrder(Pl, P);
    InverseRoot(P);
    var a, b := 1.0 / P.s - 1.0 / Pu.s, P.s - Pl.s;
    assert a > 0.0 && b > 0.0;
    assert P.p * a > 0.0;
    assert UnitValue(P, Pl, Pu) > 0.0;
    var L := ComputeL(P, Pl, Pu, V).value;
    TokensLinear(L, P, Pl, Pu);
    assert L * UnitValue(P, Pl, Pu) == V;
  }

  /** `L`, `x0`, `y0` all multiplied by `f`. */
  function Scale(pos: Position, f: real): Position {
    Position(pos.L * f, pos.x0 * f, pos.y0 * f)
  }

  /** `normalize_L`: rescale a position by one common factor so that its
      tokens are worth `V` at price `P`. The factor is non-finite exactly when
      the unscaled tokens are worth nothing at `P`. */
  function NormalizeL(L: real, x0: real, y0: real, P: real, V: real): (r: Maybe<Position>)
    ensures r.Finite? <==> VHODL(P, x0, y0) != 0.0
    ensures r.Finite? ==> VHODL(P, r.value.x0, r.value.y0) == V
    ensures r.Finite? ==> exists f: real :: r.value == Scale(Position(L, x0, y0), f)
  {
    match Div(V, x0 * P + y0)
    case NonFinite => NonFinite
    case Finite(factor) =>
      var pos := Scale(Position(L, x0, y0), factor);
      assert pos.x0 * P + pos.y0 == factor * (x0 * P + y0);
      Finite(pos)
  }

  /** When the tokens are already worth `V` the factor is exactly 1: the
      normalisation changes nothing in exact arithmetic. */
  lemma NormalizeExact(L: real, x0: real, y0: real, P: real, V: real)
    requires VHODL(P, x0, y0) == V && V != 0.0
    ensures NormalizeL(L, x0, y0, P, V) == Finite(Position(L, x0, y0))
  {
    assert x0 * P + y0 == V;
    assert V / V == 1.0;
    assert Scale(Position(L, x0, y0), 1.0) == Position(L, x0, y0);
  }

  /** `x0`, `y0` are the tokens that `L` implies at the deposit price `Pd`. */
  predicate Consistent(pos: Position, Pd: Rooted, Pl: Rooted, Pu: Rooted)
    requires Rooted3(Pd, Pl, Pu)
  {
    TokensFromL(pos.L, Pd, Pl, Pu) == Tokens(pos.x0, pos.y0)
  }

  /** A common rescaling keeps the tokens consistent with the liquidity. */
  lemma ScaleConsistent(pos: Position, f: real, Pd: Rooted, Pl: Rooted, Pu: Rooted)
    requires Rooted3(Pd, Pl, Pu) && Consistent(pos, Pd, Pl, Pu)
    ensures Consistent(Scale(pos, f), Pd, Pl, Pu)
  {
    var a, b := 1.0 / Pd.s - 1.0 / Pu.s, Pd.s - Pl.s;
    assert (pos.L * a) * f == (pos.L * f) * a;
    assert (pos.L * b) * f == (pos.L * f) * b;
  }

  /** Normalising the tokens that `L` implies at `Pd` keeps them the tokens
      the normalised liquidity implies there, whatever the factor. */
  lemma NormalizeConsistent(L: real, Pd: Rooted, Pl: Rooted, Pu: Rooted, V: real)
    requires Rooted3(Pd, Pl, Pu)
    ensures var t := TokensFromL(L, Pd, Pl, Pu);
            var r := NormalizeL(L, t.x, t.y, Pd.p, V);
            r.Finite? ==> Consistent(r.value, Pd, Pl, Pu)
  {
    var t := TokensFromL(L, Pd, Pl, Pu);
    var r := NormalizeL(L, t.x, t.y, Pd.p, V);
    if r.Finite? {
      var f :| r.value == Scale(Position(L, t.x, t.y), f);
      ScaleConsistent(Position(L, t.x, t.y), f, Pd, Pl, Pu);
    }
  }

  /** The hold value of a consistent position, in terms of its liquidity. */
  lemma HodlOfConsistent(p: real, pos: Position, Pd: Rooted, Pl: Rooted, Pu: Rooted)
    requires Rooted3(Pd, Pl, Pu) && Consistent(pos, Pd, Pl, Pu)
    ensures VHODL(p, pos.x0, pos.y0)
            == pos.L * (1.0 / Pd.s - 1.0 / Pu.s) * p + pos.L * (Pd.s - Pl.s)
  {
  }

  /** Token X held at price `P` (`x_of_P`): the closed form clamped at 0. */
  function XOfP(P: Rooted, L: real, Pu: Rooted): (x: real)
    requires P.Valid() && Pu.Valid()
    ensures x >= 0.0
  {
    var x := L * (1.0 / P.s - 1.0 / Pu.s);
    if x < 0.0 then 0.0 else x
  }

  /** Token Y held at price `P` (`y_of_P`): the closed form clamped at 0. */
  function YOfP(P: Rooted, L: real, Pl: Rooted): (y: real)
    requires P.Valid() && Pl.Valid()
    ensures y >= 0.0
  {
    var y := L * (P.s - Pl.s);
    if y < 0.0 then 0.0 else y
  }

  /** For non-negative liquidity, `x_of_P` is 0 from `Pu` upwards and is the
      unclamped `L * (1/√P - 1/√Pu)` up to `Pu`. */
  lemma XOfPClamp(P: Rooted, L: real, Pu: Rooted)
    requires P.Valid() && Pu.Valid() && L >= 0.0
    ensures P.p >= Pu.p ==> XOfP(P, L, Pu) == 0.0
    ensures P.p <= Pu.p ==> XOfP(P, L, Pu) == L * (1.0 / P.s - 1.0 / Pu.s)
  {
    InverseRootOrder(P, Pu);
    InverseRootOrder(Pu, P);
    var d := 1.0 / P.s - 1.0 / Pu.s;
    if P.p >= Pu.p { assert d <= 0.0; assert L * d <= 0.0; }
    if P.p <= Pu.p { assert d >= 0.0; assert L * d >= 0.0; }
  }

  /** For non-negative liquidity, `y_of_P` is 0 up to `Pl` and is the
      unclamped `L * (√P - √Pl)` from `Pl` upwards. */
  lemma YOfPClamp(P: Rooted, L: real, Pl: Rooted)
    requires P.Valid() && Pl.Valid() && L >= 0.0
    ensures P.p <= Pl.p ==> YOfP(P, L, Pl) == 0.0
    ensures P.p >= Pl.p ==> YOfP(P, L, Pl) == L * (P.s - Pl.s)
  {
    RootOrder(P, Pl);
    var d := P.s - Pl.s;
    if P.p <= Pl.p { assert L * d <= 0.0; }
    if P.p >= Pl.p { assert L * d >= 0.0; }
  }

  /** Inside the range the clamped curves are the tokens of `tokens_from_L`;
      in particular they meet the closed form at both bounds. */
  lemma CurveMatchesTokens(L: real, P: Rooted, Pl: Rooted, Pu: Rooted)
    requires Rooted3(P, Pl, Pu) && L >= 0.0 && Within(P, Pl, Pu)
    ensures TokensFromL(L, P, Pl, Pu) == Tokens(XOfP(P, L, Pu), YOfP(P, L, Pl))
  {
    XOfPClamp(P, L, Pu);
    YOfPClamp(P, L, Pl);
  }

  /** Value of the LP position at price `P` (`V_LP`). */
  function VLP(P: Rooted, L: real, Pl: Rooted, Pu: Rooted): (v: real)
    requires Rooted3(P, Pl, Pu)
    ensures v >= 0.0
  {
    InverseRoot(P);
    XOfP(P, L, Pu) * P.p + YOfP(P, L, Pl)
  }

  /** At or below `Pl` the position holds only X: its value is `x_of_P(P) * P`. */
  lemma VLPBelowRange(P: Rooted, L: real, Pl: Rooted, Pu: Rooted)
    requires Rooted3(P, Pl, Pu) && L >= 0.0 && P.p <= Pl.p
    ensures YOfP(P, L, Pl) == 0.0
    ensures VLP(P, L, Pl, Pu) == XOfP(P, L, Pu) * P.p
  {
    YOfPClamp(P, L, Pl);
  }

  /** At or above `Pu` the position holds only Y: its value is `y_of_P(P)`. */
  lemma VLPAboveRange(P: Rooted, L: real, Pl: Rooted, Pu: Rooted)
    requires Rooted3(P, Pl, Pu) && L >= 0.0 && P.p >= Pu.p
    ensures XOfP(P, L, Pu) == 0.0
    ensures VLP(P, L, Pl, Pu) == YOfP(P, L, Pl)
  {
    XOfPClamp(P, L, Pu);
  }

  /** Inside the range the value is `L * (2√P - P/√Pu - √Pl)`. */
  lemma VLPInRange(P: Rooted, L: real, Pl: Rooted, Pu: Rooted)
    requires Rooted3(P, Pl, Pu) && L >= 0.0 && Within(P, Pl, Pu)
    ensures VLP(P, L, Pl, Pu) == L * (2.0 * P.s - P.p * (1.0 / Pu.s) - Pl.s)
  {
    CurveMatchesTokens(L, P, Pl, Pu);
    InverseRoot(P);
    var ip, iu := 1.0 / P.s, 1.0 / Pu.s;
    calc {
      VLP(P, L, Pl, Pu);
      L * (ip - iu) * P.p + L * (P.s - Pl.s);
      L * (P.p * ip) - L * (P.p * iu) + L * (P.s - Pl.s);
      L * P.s - L * (P.p * iu) + L * (P.s - Pl.s);
      L * (2.0 * P.s - P.p * iu - Pl.s);
    }
  }
}
