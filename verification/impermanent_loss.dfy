/** The impermanent-loss computation of backtestengine.py:63-79: build the
    position from a deposit, then compare its value with holding the
    deposited tokens, at one price (`IL_now`) and over a price grid
    (`IL_curve`). IL is signed, `V_LP / V_HODL - 1`, in percent; negative
    means the position is worth less than holding.
 */
module ImpermanentLoss {
  import opened Arith
  import opened Liquidity

  /** Lines 63-65: `L_raw` from the deposit, the tokens it implies at the
      deposit price, then the normalised position. The position is finite
      exactly when both divisions are; it then holds the tokens its liquidity
      implies at `Pd`, and they are worth `V` there. */
  function Deposit(Pd: Rooted, Pl: Rooted, Pu: Rooted, V: real): (r: Maybe<Position>)
    requires Rooted3(Pd, Pl, Pu)
    ensures r.Finite? <==> UnitValue(Pd, Pl, Pu) != 0.0 && V != 0.0
    ensures r.Finite? ==> Consistent(r.value, Pd, Pl, Pu)
    ensures r.Finite? ==> VHODL(Pd.p, r.value.x0, r.value.y0) == V
  {
    match ComputeL(Pd, Pl, Pu, V)
    case NonFinite => NonFinite
    case Finite(Lraw) =>
      var t := TokensFromL(Lraw, Pd, Pl, Pu);
      NormalizeConsistent(Lraw, Pd, Pl, Pu, V);
      NormalizeL(Lraw, t.x, t.y, Pd.p, V)
  }

  /** An in-range deposit `0 < Pl < Pd < Pu` of `V > 0` gives a position with
      positive liquidity and non-negative tokens, and the normalisation
      factor is exactly 1: the position is `(L_raw, x0_raw, y0_raw)`. */
  lemma DepositInRange(Pd: Rooted, Pl: Rooted, Pu: Rooted, V: real)
    requires Rooted3(Pd, Pl, Pu) && Pl.p < Pd.p < Pu.p && V > 0.0
    ensures var r := Deposit(Pd, Pl, Pu, V);
            && r.Finite?
            && r.value.L > 0.0 && r.value.x0 >= 0.0 && r.value.y0 >= 0.0
            && var Lraw := ComputeL(Pd, Pl, Pu, V).value;
               var t := TokensFromL(Lraw, Pd, Pl, Pu);
               r.value == Position(Lraw, t.x, t.y)
  {
    ComputeLPositive(Pd, Pl, Pu, V);
    var Lraw := ComputeL(Pd, Pl, Pu, V).value;
    var t := TokensFromL(Lraw, Pd, Pl, Pu);
    NormalizeExact(Lraw, t.x, t.y, Pd.p, V);
  }

  /** Value is conserved at the deposit price: `V_LP(Pd) == V_HODL(Pd) == V`. */
  lemma ValueAtDeposit(Pd: Rooted, Pl: Rooted, Pu: Rooted, V: real)
    requires Rooted3(Pd, Pl, Pu) && Pl.p < Pd.p < Pu.p && V > 0.0
    ensures var pos := Deposit(Pd, Pl, Pu, V).value;
            && VLP(Pd, pos.L, Pl, Pu) == V
            && VHODL(Pd.p, pos.x0, pos.y0) == V
  {
    DepositInRange(Pd, Pl, Pu, V);
    LPEqualsHodlAtDeposit(Deposit(Pd, Pl, Pu, V).value, Pd, Pl, Pu);
  }

  /** At its own deposit price a consistent position is worth its hold value. */
  lemma LPEqualsHodlAtDeposit(pos: Position, Pd: Rooted, Pl: Rooted, Pu: Rooted)
    requires Rooted3(Pd, Pl, Pu) && Consistent(pos, Pd, Pl, Pu)
    requires pos.L >= 0.0 && Within(Pd, Pl, Pu)
    ensures VLP(Pd, pos.L, Pl, Pu) == VHODL(Pd.p, pos.x0, pos.y0)
  {
    CurveMatchesTokens(pos.L, Pd, Pl, Pu);
  }

  /** For a position consistent at `Pd` and any `P` in `[Pl, Pu]`,
      `V_HODL(P) - V_LP(P) == (L / √Pd) * (√P - √Pd)²`. */
  lemma HodlGap(P: Rooted, pos: Position, Pd: Rooted, Pl: Rooted, Pu: Rooted)
    requires Rooted3(Pd, Pl, Pu) && P.Valid()
    requires Consistent(pos, Pd, Pl, Pu) && pos.L >= 0.0 && Within(P, Pl, Pu)
    ensures VHODL(P.p, pos.x0, pos.y0) - VLP(P, pos.L, Pl, Pu)
            == (pos.L * (1.0 / Pd.s)) * ((P.s - Pd.s) * (P.s - Pd.s))
  {
    VLPInRange(P, pos.L, Pl, Pu);
    HodlGapUnclamped(P, pos, Pd, Pl, Pu);
  }

  /** The hold value minus the in-range closed form of `V_LP`. */
  lemma HodlGapUnclamped(P: Rooted, pos: Position, Pd: Rooted, Pl: Rooted, Pu: Rooted)
    requires Rooted3(Pd, Pl, Pu) && P.Valid() && Consistent(pos, Pd, Pl, Pu)
    ensures VHODL(P.p, pos.x0, pos.y0) - pos.L * (2.0 * P.s - P.p * (1.0 / Pu.s) - Pl.s)
            == (pos.L * (1.0 / Pd.s)) * ((P.s - Pd.s) * (P.s - Pd.s))
  {
    InverseRoot(Pd);
    HodlOfConsistent(P.p, pos, Pd, Pl, Pu);
    GapAlgebra(VHODL(P.p, pos.x0, pos.y0), pos.L * (2.0 * P.s - P.p * (1.0 / Pu.s) - Pl.s),
               pos.L, P.s, P.p, Pd.s, 1.0 / Pd.s, Pl.s, 1.0 / Pu.s);
  }

  /** The polynomial identity behind `HodlGap`, with `sp² == p` and
      `sd * id == 1`. */
  lemma GapAlgebra(hodl: real, lp: real,
                   L: real, sp: real, p: real, sd: real, id: real, sl: real, iu: real)
    requires sp * sp == p && sd * id == 1.0
    requires hodl == L * (id - iu) * p + L * (sd - sl)
    requires lp == L * (2.0 * sp - p * iu - sl)
    ensures hodl - lp == (L * id) * ((sp - sd) * (sp - sd))
  {
    calc {
      hodl - lp;
      L * (id - iu) * p + L * (sd - sl) - L * (2.0 * sp - p * iu - sl);
      L * (p * id + sd - 2.0 * sp);
      { assert sd * (sd * id) == sd; assert sp * (sd * id) == sp; }
      L * (p * id - 2.0 * sp * (sd * id) + sd * (sd * id));
      L * id * (sp * sp - 2.0 * sp * sd + sd * sd);
      (L * id) * ((sp - sd) * (sp - sd));
    }
  }

  /** The IL percentage `(lp / hodl - 1) * 100`: finite exactly when the hold
      value is non-zero; zero exactly when the two values agree; and, for a
      positive hold value, non-positive exactly when the LP is worth no more;
      and reading the percentage back recovers the LP value from the hold value. */
  function ILPercent(lp: real, hodl: real): (r: Maybe<real>)
    ensures r.Finite? <==> hodl != 0.0
    ensures r.Finite? ==> (r.value == 0.0 <==> lp == hodl)
    ensures r.Finite? && hodl > 0.0 ==> (r.value <= 0.0 <==> lp <= hodl)
    ensures r.Finite? ==> lp == (r.value / 100.0 + 1.0) * hodl
  {
    match Div(lp, hodl)
    case NonFinite => NonFinite
    case Finite(q) =>
      assert q == 1.0 <==> lp == hodl;
      assert hodl > 0.0 ==> (q <= 1.0 <==> lp <= hodl);
      Finite((q - 1.0) * 100.0)
  }

  /** IL of a position at price `P` (line 77, and each entry of line 70). */
  function ILAt(P: Rooted, pos: Position, Pl: Rooted, Pu: Rooted): (r: Maybe<real>)
    requires Rooted3(P, Pl, Pu)
    ensures r.Finite? <==> VHODL(P.p, pos.x0, pos.y0) != 0.0
    ensures r.Finite? ==>
              VLP(P, pos.L, Pl, Pu) == (r.value / 100.0 + 1.0) * VHODL(P.p, pos.x0, pos.y0)
  {
    ILPercent(VLP(P, pos.L, Pl, Pu), VHODL(P.p, pos.x0, pos.y0))
  }

  /** With an in-range deposit of `V > 0` the hold value is positive at every
      positive price, so every IL division is defined. */
  lemma HodlPositive(P: Rooted, Pd: Rooted, Pl: Rooted, Pu: Rooted, V: real)
    requires Rooted3(Pd, Pl, Pu) && Pl.p < Pd.p < Pu.p && V > 0.0 && P.Valid()
    ensures var pos := Deposit(Pd, Pl, Pu, V).value;
            VHODL(P.p, pos.x0, pos.y0) > 0.0
    ensures ILAt(P, Deposit(Pd, Pl, Pu, V).value, Pl, Pu).Finite?
  {
    DepositInRange(Pd, Pl, Pu, V);
    InverseRoot(P);
    var pos := Deposit(Pd, Pl, Pu, V).value;
    if pos.x0 > 0.0 {
      assert pos.x0 * P.p > 0.0;
    } else {
      assert pos.y0 == V;
    }
  }

  /** Inside the range a consistent position with positive liquidity is
      worth at most its hold value, and exactly that only at `Pd`. */
  lemma LPBelowHodl(P: Rooted, pos: Position, Pd: Rooted, Pl: Rooted, Pu: Rooted)
    requires Rooted3(Pd, Pl, Pu) && P.Valid()
    requires Consistent(pos, Pd, Pl, Pu) && pos.L > 0.0 && Within(P, Pl, Pu)
    ensures VLP(P, pos.L, Pl, Pu) <= VHODL(P.p, pos.x0, pos.y0)
    ensures VLP(P, pos.L, Pl, Pu) == VHODL(P.p, pos.x0, pos.y0) <==> P.p == Pd.p
  {
    HodlGap(P, pos, Pd, Pl, Pu);
    InverseRoot(Pd);
    RootOrder(P, Pd);
    GapSign(VHODL(P.p, pos.x0, pos.y0), VLP(P, pos.L, Pl, Pu), pos.L * (1.0 / Pd.s), P.s - Pd.s);
  }

  /** A gap `k * d²` with `k > 0` is non-negative and vanishes only at `d == 0`. */
  lemma GapSign(hodl: real, lp: real, k: real, d: real)
    requires k > 0.0 && hodl - lp == k * (d * d)
    ensures lp <= hodl
    ensures lp == hodl <==> d == 0.0
  {
    SquareNonNeg(d);
    NonNegProduct(k, d * d);
    if lp == hodl {
      ZeroProduct(k, d * d);
      ZeroProduct(d, d);
    }
    if d == 0.0 {
      assert d * d == 0.0;
    }
  }

  /** Inside the range an in-range deposit never beats holding: IL is finite
      and `<= 0`, and it is 0 only at the deposit price. */
  lemma ILInRange(P: Rooted, Pd: Rooted, Pl: Rooted, Pu: Rooted, V: real)
    requires Rooted3(Pd, Pl, Pu) && Pl.p < Pd.p < Pu.p && V > 0.0
    requires P.Valid() && Within(P, Pl, Pu)
    ensures var il := ILAt(P, Deposit(Pd, Pl, Pu, V).value, Pl, Pu);
            il.Finite? && il.value <= 0.0 && (il.value == 0.0 <==> P.p == Pd.p)
  {
    DepositInRange(Pd, Pl, Pu, V);
    HodlPositive(P, Pd, Pl, Pu, V);
    LPBelowHodl(P, Deposit(Pd, Pl, Pu, V).value, Pd, Pl, Pu);
  }

  /** `IL_now` is 0 when the current price is the deposit price. */
  lemma ILNowAtDeposit(Pd: Rooted, Pl: Rooted, Pu: Rooted, V: real)
    requires Rooted3(Pd, Pl, Pu) && Pl.p < Pd.p < Pu.p && V > 0.0
    ensures ILAt(Pd, Deposit(Pd, Pl, Pu, V).value, Pl, Pu) == Finite(0.0)
  {
    ILInRange(Pd, Pd, Pl, Pu, V);
  }

  /** Every grid price carries a root witness. */
  predicate RootedGrid(grid: seq<Rooted>) {
    forall i :: 0 <= i < |grid| ==> grid[i].Valid()
  }

  /** Line 70: IL over a price grid, one entry per grid price. */
  function ILCurve(grid: seq<Rooted>, pos: Position, Pl: Rooted, Pu: Rooted): (c: seq<Maybe<real>>)
    requires RootedGrid(grid) && Pl.Valid() && Pu.Valid()
    ensures |c| == |grid|
    ensures forall i :: 0 <= i < |grid| ==> c[i] == ILAt(grid[i], pos, Pl, Pu)
  {
    if grid == [] then []
    else [ILAt(grid[0], pos, Pl, Pu)] + ILCurve(grid[1..], pos, Pl, Pu)
  }

  /** For an in-range deposit of `V > 0`, every entry of the curve is defined,
      and every entry at a grid price inside `[Pl, Pu]` is `<= 0`. */
  lemma ILCurveInRange(grid: seq<Rooted>, Pd: Rooted, Pl: Rooted, Pu: Rooted, V: real)
    requires Rooted3(Pd, Pl, Pu) && Pl.p < Pd.p < Pu.p && V > 0.0 && RootedGrid(grid)
    ensures var c := ILCurve(grid, Deposit(Pd, Pl, Pu, V).value, Pl, Pu);
            && |c| == |grid|
            && (forall i :: 0 <= i < |c| ==> c[i].Finite?)
            && (forall i :: 0 <= i < |c| && Within(grid[i], Pl, Pu) ==> c[i].value <= 0.0)
  {
    var pos := Deposit(Pd, Pl, Pu, V).value;
    var c := ILCurve(grid, pos, Pl, Pu);
    forall i | 0 <= i < |c|
      ensures c[i].Finite?
      ensures Within(grid[i], Pl, Pu) ==> c[i].value <= 0.0
    {
      HodlPositive(grid[i], Pd, Pl, Pu, V);
      if Within(grid[i], Pl, Pu) {
        ILInRange(grid[i], Pd, Pl, Pu, V);
      }
    }
  }

  /** The example deposit: 100 at `Pd = 1` with range `[0.81, 1.44]`
      gives `L = 375`, `x0 = 62.5`, `y0 = 37.5`. */
  lemma ExampleDeposit()
    ensures Deposit(Rooted(1.0, 1.0), Rooted(0.81, 0.9), Rooted(1.44, 1.2), 100.0)
            == Finite(Position(375.0, 62.5, 37.5))
  {
    var Pd, Pl, Pu := Rooted(1.0, 1.0), Rooted(0.81, 0.9), Rooted(1.44, 1.2);
    assert 1.0 / Pu.s == 5.0 / 6.0;
    assert 1.0 / Pd.s == 1.0;
    assert TokensFromL(1.0, Pd, Pl, Pu) == Tokens(1.0 / 6.0, 0.1);
    assert Div(100.0, 1.0 / 6.0 + 0.1) == Finite(375.0);
    assert ComputeL(Pd, Pl, Pu, 100.0) == Finite(375.0);
    DepositInRange(Pd, Pl, Pu, 100.0);
    assert TokensFromL(375.0, Pd, Pl, Pu) == Tokens(62.5, 37.5);
  }

  /** As written, the valuation does not stop adding token Y above `Pu`, so
      IL turns positive inside the plotted grid `[0.8 Pl, 1.3 Pu]`: for the
      position of `ExampleDeposit`, at `P = 1.69` it is worth 150 while
      holding is worth 143.125. */
  lemma ILPositiveAboveRange()
    ensures 0.8 * 0.81 <= 1.69 <= 1.3 * 1.44
    ensures VLP(Rooted(1.69, 1.3), 375.0, Rooted(0.81, 0.9), Rooted(1.44, 1.2)) == 150.0
    ensures VHODL(1.69, 62.5, 37.5) == 143.125
    ensures ILAt(Rooted(1.69, 1.3), Position(375.0, 62.5, 37.5), Rooted(0.81, 0.9), Rooted(1.44, 1.2))
            .Finite?
    ensures ILAt(Rooted(1.69, 1.3), Position(375.0, 62.5, 37.5), Rooted(0.81, 0.9), Rooted(1.44, 1.2))
            .value > 0.0
  {
    var Pl, Pu, P := Rooted(0.81, 0.9), Rooted(1.44, 1.2), Rooted(1.69, 1.3);
    VLPAboveRange(P, 375.0, Pl, Pu);
    YOfPClamp(P, 375.0, Pl);
    assert VLP(P, 375.0, Pl, Pu) == 150.0;
    var il := ILPercent(150.0, 143.125);
    assert !(il.value <= 0.0);
  }
}
