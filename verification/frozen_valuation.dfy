/** The valuation that concentrated liquidity actually has outside its range.

    `x_of_P` and `y_of_P` in backtestengine.py:39-53 only clamp their closed
    forms at 0. Below `Pl` the X balance of a real position stops at its
    value at `Pl`, and above `Pu` its Y balance stops at its value at `Pu`;
    the closed forms keep growing instead. Here the composition is frozen by
    evaluating them at the price clamped into `[Pl, Pu]`. Inside the
    range this agrees with the dashboard's valuation; everywhere it keeps the
    LP value at or below the hold value.
 */
module FrozenValuation {
  import opened Arith
  import opened Liquidity
  import opened ImpermanentLoss

  /** `Pl` and `Pu` carry root witnesses and `Pl <= Pu`. */
  predicate Bounds(Pl: Rooted, Pu: Rooted) {
    Pl.Valid() && Pu.Valid() && Pl.p <= Pu.p
  }

  /** The price clamped into `[Pl, Pu]`, with its root. */
  function Clamp(P: Rooted, Pl: Rooted, Pu: Rooted): (c: Rooted)
    requires P.Valid() && Bounds(Pl, Pu)
    ensures c.Valid() && Within(c, Pl, Pu)
    ensures Within(P, Pl, Pu) ==> c == P
    ensures P.p <= Pl.p ==> c == Pl
    ensures P.p >= Pu.p ==> c == Pu
  {
    if P.p < Pl.p then Pl else if P.p > Pu.p then Pu else P
  }

  /** The balances a position of liquidity `L` holds at price `P`: the
      tokens `tokens_from_L` gives at the clamped price. */
  function FrozenTokens(P: Rooted, L: real, Pl: Rooted, Pu: Rooted): (t: Tokens)
    requires P.Valid() && Bounds(Pl, Pu)
    ensures L >= 0.0 ==> t.x >= 0.0 && t.y >= 0.0
  {
    TokensFromL(L, Clamp(P, Pl, Pu), Pl, Pu)
  }

  /** Value of the position at price `P`, composition frozen outside the range. */
  function VLPFrozen(P: Rooted, L: real, Pl: Rooted, Pu: Rooted): real
    requires P.Valid() && Bounds(Pl, Pu)
  {
    var t := FrozenTokens(P, L, Pl, Pu);
    t.x * P.p + t.y
  }

  /** Inside `[Pl, Pu]` the frozen balances are the dashboard's `x_of_P` and
      `y_of_P`, and the frozen valuation is the dashboard's valuation. */
  lemma FrozenAgreesInRange(P: Rooted, L: real, Pl: Rooted, Pu: Rooted)
    requires P.Valid() && Bounds(Pl, Pu) && Within(P, Pl, Pu) && L >= 0.0
    ensures FrozenTokens(P, L, Pl, Pu) == Tokens(XOfP(P, L, Pu), YOfP(P, L, Pl))
    ensures VLPFrozen(P, L, Pl, Pu) == VLP(P, L, Pl, Pu)
  {
    assert Clamp(P, Pl, Pu) == P;
    CurveMatchesTokens(L, P, Pl, Pu);
  }

  /** Below `Pl` the position holds only X, a constant amount: the X balance
      it has at `Pl`. */
  lemma FrozenBelowRange(P: Rooted, L: real, Pl: Rooted, Pu: Rooted)
    requires P.Valid() && Bounds(Pl, Pu) && P.p <= Pl.p
    ensures FrozenTokens(P, L, Pl, Pu) == FrozenTokens(Pl, L, Pl, Pu)
    ensures FrozenTokens(P, L, Pl, Pu) == Tokens(L * (1.0 / Pl.s - 1.0 / Pu.s), 0.0)
  {
  }

  /** Above `Pu` the position holds only Y, a constant amount: the Y balance
      it has at `Pu`. */
  lemma FrozenAboveRange(P: Rooted, L: real, Pl: Rooted, Pu: Rooted)
    requires P.Valid() && Bounds(Pl, Pu) && P.p >= Pu.p
    ensures FrozenTokens(P, L, Pl, Pu) == FrozenTokens(Pu, L, Pl, Pu)
    ensures FrozenTokens(P, L, Pl, Pu) == Tokens(0.0, L * (Pu.s - Pl.s))
  {
  }

  /** The polynomial identity behind `TokensGap`, with `q * iq == 1` and
      `sd * id == 1`. */
  lemma FrozenGapAlgebra(hodl: real, lp: real, L: real, p: real, q: real, iq: real,
                         sd: real, id: real, sl: real, iu: real)
    requires q * iq == 1.0 && sd * id == 1.0
    requires hodl == L * (id - iu) * p + L * (sd - sl)
    requires lp == L * (iq - iu) * p + L * (q - sl)
    ensures hodl - lp == (L * id * iq) * ((q - sd) * (p - sd * q))
  {
    calc {
      hodl - lp;
      L * ((id - iq) * p + sd - q);
      { assert q * iq == 1.0 && sd * id == 1.0; }
      L * (p * id * (q * iq) - q * (sd * id) - p * iq * (sd * id) + sd * (q * iq));
      (L * id * iq) * ((q - sd) * (p - sd * q));
    }
  }

  /** The sign of the gap in `TokensGap`: with non-negative `L` and positive
      inverse roots, a gap of `(L·id·iq)·(a·(p - b))` is non-negative when
      `a·(sp² - b)` is and `p == sp²`. */
  lemma GapNonNeg(hodl: real, lp: real, L: real, id: real, iq: real,
                  a: real, p: real, sp: real, b: real)
    requires hodl - lp == (L * id * iq) * (a * (p - b))
    requires L >= 0.0 && id > 0.0 && iq > 0.0
    requires p == sp * sp && a * (sp * sp - b) >= 0.0
    ensures lp <= hodl
  {
    NonNegProduct(L, id);
    NonNegProduct(L * id, iq);
    NonNegProduct(L * id * iq, a * (p - b));
  }

  /** `FrozenGapAlgebra` with the sign of each factor: the gap is non-negative
      when `q` lies between `sd` and `sp` in the sense of `BetweenProduct`. */
  lemma FrozenGapSign(hodl: real, lp: real, L: real, p: real, q: real, iq: real,
                      sd: real, id: real, sl: real, iu: real, sp: real)
    requires q * iq == 1.0 && sd * id == 1.0
    requires hodl == L * (id - iu) * p + L * (sd - sl)
    requires lp == L * (iq - iu) * p + L * (q - sl)
    requires L >= 0.0 && id > 0.0 && iq > 0.0
    requires p == sp * sp && (q - sd) * (sp * sp - sd * q) >= 0.0
    ensures lp <= hodl
  {
    FrozenGapAlgebra(hodl, lp, L, p, q, iq, sd, id, sl, iu);
    GapNonNeg(hodl, lp, L, id, iq, q - sd, p, sp, sd * q);
  }

  /** Valued at price `P`, the balances `tokens_from_L` gives at price `C` are
      worth `L * (1/√C - 1/√Pu) * P + L * (√C - √Pl)`. */
  lemma TokensValue(P: Rooted, C: Rooted, L: real, Pl: Rooted, Pu: Rooted)
    requires P.Valid() && Rooted3(C, Pl, Pu)
    ensures var t := TokensFromL(L, C, Pl, Pu);
            t.x * P.p + t.y == L * (1.0 / C.s - 1.0 / Pu.s) * P.p + L * (C.s - Pl.s)
  {
  }

  /** Valued at price `P`, the balances `tokens_from_L` gives at any price `C`
      fall short of the hold value by `L/(√Pd·√C) · (√C - √Pd) · (P - √Pd·√C)`. */
  lemma TokensGap(P: Rooted, C: Rooted, pos: Position, Pd: Rooted, Pl: Rooted, Pu: Rooted)
    requires P.Valid() && C.Valid() && Rooted3(Pd, Pl, Pu) && Consistent(pos, Pd, Pl, Pu)
    ensures var t := TokensFromL(pos.L, C, Pl, Pu);
            VHODL(P.p, pos.x0, pos.y0) - (t.x * P.p + t.y)
            == (pos.L * (1.0 / Pd.s) * (1.0 / C.s)) * ((C.s - Pd.s) * (P.p - Pd.s * C.s))
  {
    var t := TokensFromL(pos.L, C, Pl, Pu);
    InverseRoot(Pd);
    InverseRoot(C);
    HodlOfConsistent(P.p, pos, Pd, Pl, Pu);
    TokensValue(P, C, pos.L, Pl, Pu);
    FrozenGapAlgebra(VHODL(P.p, pos.x0, pos.y0), t.x * P.p + t.y,
                     pos.L, P.p, C.s, 1.0 / C.s, Pd.s, 1.0 / Pd.s, Pl.s, 1.0 / Pu.s);
  }

  /** Valued at price `P`, the balances of any price `C` between the deposit
      price and `P` are worth no more than the deposited balances. */
  lemma TokensBetweenBelowHodl(P: Rooted, C: Rooted, pos: Position, Pd: Rooted, Pl: Rooted, Pu: Rooted)
    requires P.Valid() && C.Valid() && Rooted3(Pd, Pl, Pu) && Consistent(pos, Pd, Pl, Pu)
    requires pos.L >= 0.0
    requires Pd.p <= C.p <= P.p || P.p <= C.p <= Pd.p
    ensures var t := TokensFromL(pos.L, C, Pl, Pu);
            t.x * P.p + t.y <= VHODL(P.p, pos.x0, pos.y0)
  {
    var t := TokensFromL(pos.L, C, Pl, Pu);
    RootOrder(C, Pd);
    RootOrder(P, C);
    BetweenProduct(C.s, Pd.s, P.s);
    InverseRoot(Pd);
    InverseRoot(C);
    HodlOfConsistent(P.p, pos, Pd, Pl, Pu);
    TokensValue(P, C, pos.L, Pl, Pu);
    FrozenGapSign(VHODL(P.p, pos.x0, pos.y0), t.x * P.p + t.y,
                  pos.L, P.p, C.s, 1.0 / C.s, Pd.s, 1.0 / Pd.s, Pl.s, 1.0 / Pu.s, P.s);
  }

  /** With the frozen composition a position consistent at an in-range
      deposit price never beats holding, at any positive price. */
  lemma FrozenLPBelowHodl(P: Rooted, pos: Position, Pd: Rooted, Pl: Rooted, Pu: Rooted)
    requires P.Valid() && Pd.Valid() && Bounds(Pl, Pu) && Within(Pd, Pl, Pu)
    requires Consistent(pos, Pd, Pl, Pu) && pos.L >= 0.0
    ensures VLPFrozen(P, pos.L, Pl, Pu) <= VHODL(P.p, pos.x0, pos.y0)
  {
    TokensBetweenBelowHodl(P, Clamp(P, Pl, Pu), pos, Pd, Pl, Pu);
  }

  /** IL at price `P` under the frozen valuation. */
  function ILFrozenAt(P: Rooted, pos: Position, Pl: Rooted, Pu: Rooted): Maybe<real>
    requires P.Valid() && Bounds(Pl, Pu)
  {
    ILPercent(VLPFrozen(P, pos.L, Pl, Pu), VHODL(P.p, pos.x0, pos.y0))
  }

  /** Inside the range the corrected IL is the dashboard's IL. */
  lemma ILFrozenAgreesInRange(P: Rooted, pos: Position, Pl: Rooted, Pu: Rooted)
    requires P.Valid() && Bounds(Pl, Pu) && Within(P, Pl, Pu) && pos.L >= 0.0
    ensures ILFrozenAt(P, pos, Pl, Pu) == ILAt(P, pos, Pl, Pu)
  {
    FrozenAgreesInRange(P, pos.L, Pl, Pu);
  }

  /** For an in-range deposit of `V > 0` the corrected IL is defined and
      `<= 0` at every positive price, inside the range or not. */
  lemma ILFrozenNonPositive(P: Rooted, Pd: Rooted, Pl: Rooted, Pu: Rooted, V: real)
    requires Rooted3(Pd, Pl, Pu) && Pl.p < Pd.p < Pu.p && V > 0.0 && P.Valid()
    ensures var il := ILFrozenAt(P, Deposit(Pd, Pl, Pu, V).value, Pl, Pu);
            il.Finite? && il.value <= 0.0
  {
    DepositInRange(Pd, Pl, Pu, V);
    HodlPositive(P, Pd, Pl, Pu, V);
    FrozenLPBelowHodl(P, Deposit(Pd, Pl, Pu, V).value, Pd, Pl, Pu);
  }

  /** The dashboard's example that shows positive IL above the range is
      valued below holding once the composition is frozen: 112.5 against
      143.125 at `P = 1.69`. */
  lemma FrozenExample()
    ensures VLPFrozen(Rooted(1.69, 1.3), 375.0, Rooted(0.81, 0.9), Rooted(1.44, 1.2)) == 112.5
    ensures VLPFrozen(Rooted(1.69, 1.3), 375.0, Rooted(0.81, 0.9), Rooted(1.44, 1.2))
            < VHODL(1.69, 62.5, 37.5)
  {
    FrozenAboveRange(Rooted(1.69, 1.3), 375.0, Rooted(0.81, 0.9), Rooted(1.44, 1.2));
  }
}
