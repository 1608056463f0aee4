# Concentrated-liquidity impermanent loss, and the price-series sanitiser

This project models two pieces of a crypto liquidity-provision dashboard.

The first piece is the impermanent-loss (IL) panel, in `backtestengine.py`. A deposit of value `V`
is placed at price `Pd` into a Uniswap-v3-style position with bounds `[Pl, Pu]`. The panel
- derives the liquidity constant `L` (`compute_L`);
- derives the tokens `(x0, y0)` that `L` implies at `Pd` (`tokens_from_L`);
- rescales all three so the position is worth `V` (`normalize_L`);
- values the position at any price `P` (`x_of_P`, `y_of_P`, `V_LP`) against simply holding
  `(x0, y0)` (`V_HODL`);
- reports `IL = (V_LP / V_HODL - 1) * 100` over a price grid and at the current price.

The second piece is the cleaning step of `get_market_chart`, in `test_dummy.py`. It takes the
prices the market API returned, drops NaN and non-positive values, and falls back to thirty `1.0`s
when nothing is left or the request failed.

Modules:
- `Arith` (`arith.dfy`) holds the shared arithmetic:
  - `Maybe` with `Div`, which models float64 division by zero: it yields inf/nan instead of
    raising, so the result is `NonFinite`;
  - `Rooted`, a price carried together with its positive square root. This replaces `np.sqrt`;
  - small order and sign lemmas.
- `Liquidity` (`liquidity.dfy`) covers `compute_L` through `V_HODL`.
- `ImpermanentLoss` (`impermanent_loss.dfy`) covers the computation at lines 63-79: building the
  deposit, IL at one price, and the IL curve over a grid of prices.
- `FrozenValuation` (`frozen_valuation.dfy`) is the corrected out-of-range valuation; see
  Findings.
- `MarketChart` (`market_chart.dfy`) covers the sanitiser.

Prices are exact reals, and every price that goes through a square root carries its root as a
witness (`s > 0 && s * s == p`).

In a Uniswap-v3 concentrated-liquidity position the composition stays fixed below `P_lower` and
above `P_upper`. The code only clamps `x_of_P` and `y_of_P` at 0, and `Liquidity` models exactly
that (see Findings).

## Model

| member | source | states |
|---|---|---|
| Arith.Div | backtestengine.py:25 | float division is finite exactly when the divisor is non-zero, and then the quotient times the divisor is the dividend |
| Liquidity.TokensFromL | backtestengine.py:27-33 | for non-negative liquidity and a price inside `[Pl, Pu]` both token amounts are non-negative |
| Liquidity.UnitValue | backtestengine.py:23-25 | the denominator `P*A + B` of `compute_L` is strictly positive for `Pl < P < Pu` (that it is the value of the tokens of unit liquidity is `TokensLinear`) |
| Liquidity.TokensLinear | backtestengine.py:27-33 | the tokens of liquidity `L` are worth `L` times the value of the tokens of unit liquidity, which is the denominator `P*A + B` of `compute_L` |
| Liquidity.ComputeL | backtestengine.py:19-25 | the liquidity is finite exactly when the denominator is non-zero; the tokens of the returned liquidity are then worth exactly `V` at the deposit price |
| Liquidity.ComputeLPositive | backtestengine.py:19-25 | with `Pl < P < Pu` and `V > 0` the liquidity is finite and strictly positive |
| Liquidity.NormalizeL | backtestengine.py:35-37 | the rescaled position is finite exactly when the unscaled tokens are worth something at `P`; it is then worth exactly `V` and is the input scaled by one common factor |
| Liquidity.NormalizeExact | backtestengine.py:35-37 | when the tokens are already worth `V != 0`, normalisation returns the position unchanged (factor 1) |
| Liquidity.ScaleConsistent | backtestengine.py:35-37 | scaling `L`, `x0` and `y0` by one factor keeps `(x0, y0)` the tokens that `L` implies at the deposit price |
| Liquidity.NormalizeConsistent | backtestengine.py:35-37 | whatever factor `normalize_L` applies to the tokens that `L` implies at `Pd`, the result is again the tokens its liquidity implies there |
| Liquidity.HodlOfConsistent | backtestengine.py:59-60 | the hold value of a consistent position at any price, written in terms of its liquidity |
| Liquidity.HodlSign | backtestengine.py:59-60 | `V_HODL` of non-negative amounts is non-negative at a non-negative price, and at a positive price it is 0 exactly when both amounts are 0 |
| Liquidity.XOfP | backtestengine.py:39-45 | the token-X balance is never negative |
| Liquidity.XOfPClamp | backtestengine.py:39-45 | for `L >= 0`, `x_of_P` is 0 for every `P >= Pu` and equals the unclamped `L*(1/√P - 1/√Pu)` for every `P <= Pu` |
| Liquidity.YOfP | backtestengine.py:47-53 | the token-Y balance is never negative |
| Liquidity.YOfPClamp | backtestengine.py:47-53 | for `L >= 0`, `y_of_P` is 0 for every `P <= Pl` and equals the unclamped `L*(√P - √Pl)` for every `P >= Pl` |
| Liquidity.CurveMatchesTokens | backtestengine.py:27-53 | inside `[Pl, Pu]` the clamped balances are exactly the tokens `tokens_from_L` gives |
| Liquidity.VLP | backtestengine.py:55-57 | the position's value is never negative |
| Liquidity.VLPBelowRange | backtestengine.py:47-57 | at or below `Pl` the Y balance is 0 and `V_LP(P) == x_of_P(P) * P` |
| Liquidity.VLPAboveRange | backtestengine.py:39-57 | at or above `Pu` the X balance is 0 and `V_LP(P) == y_of_P(P)` |
| Liquidity.VLPInRange | backtestengine.py:55-57 | inside the range `V_LP(P) == L*(2√P - P/√Pu - √Pl)` |
| ImpermanentLoss.Deposit | backtestengine.py:63-65 | the deposit position is finite exactly when the denominator of `compute_L` and `V` are non-zero; its tokens are then those its liquidity implies at `Pd`, and they are worth `V` there |
| ImpermanentLoss.DepositInRange | backtestengine.py:63-65 | for `Pl < Pd < Pu` and `V > 0`: `L > 0`, `x0 >= 0`, `y0 >= 0`, and normalisation leaves `(L_raw, x0_raw, y0_raw)` unchanged |
| ImpermanentLoss.ValueAtDeposit | backtestengine.py:55-65 | value is conserved at the deposit price: `V_LP(Pd) == V_HODL(Pd) == V` |
| ImpermanentLoss.LPEqualsHodlAtDeposit | backtestengine.py:55-60 | a position is worth its hold value at its own in-range deposit price |
| ImpermanentLoss.HodlGapUnclamped | backtestengine.py:55-60 | hold value minus the in-range closed form of `V_LP` is `(L/√Pd)*(√P - √Pd)²` |
| ImpermanentLoss.HodlGap | backtestengine.py:55-60 | inside the range `V_HODL(P) - V_LP(P) == (L/√Pd)*(√P - √Pd)²` |
| ImpermanentLoss.LPBelowHodl | backtestengine.py:55-60 | inside the range, with `L > 0`, `V_LP <= V_HODL`, with equality exactly at `P == Pd` |
| ImpermanentLoss.ILPercent | backtestengine.py:70 | the IL percentage is finite exactly when the hold value is non-zero; it is 0 exactly when the two values agree; for a positive hold value it is `<= 0` exactly when the LP is worth no more than holding; reading it back, `lp == (IL/100 + 1) * hodl` |
| ImpermanentLoss.ILAt | backtestengine.py:68-77 | `IL_now` (and each entry of the curve) is finite exactly when `V_HODL(P) != 0`, and then `V_LP(P) == (IL/100 + 1) * V_HODL(P)` |
| ImpermanentLoss.HodlPositive | backtestengine.py:59-60 | with an in-range deposit of `V > 0` the hold value is positive at every positive price, so the IL division is defined there |
| ImpermanentLoss.ILInRange | backtestengine.py:68-70 | inside the range IL is defined and `<= 0`, and it is 0 exactly at the deposit price |
| ImpermanentLoss.ILNowAtDeposit | backtestengine.py:77 | `IL_now` is exactly 0 when the current price is the deposit price |
| ImpermanentLoss.ILCurve | backtestengine.py:67-70 | the curve has one entry per grid price, and entry `i` is the IL at grid price `i` |
| ImpermanentLoss.ILCurveInRange | backtestengine.py:67-70 | for an in-range deposit every curve entry is defined, and every entry at a grid price inside `[Pl, Pu]` is `<= 0` |
| ImpermanentLoss.ExampleDeposit | backtestengine.py:63-65 | depositing 100 at `Pd = 1` into `[0.81, 1.44]` gives `L = 375`, `x0 = 62.5`, `y0 = 37.5` |
| ImpermanentLoss.ILPositiveAboveRange | backtestengine.py:39-57 | as written, that position at `P = 1.69` is worth 150 against a hold value of 143.125, so IL is positive at a price inside the plotted grid |
| FrozenValuation.Clamp | backtestengine.py:39-53 | the clamped price is a valid rooted price in `[Pl, Pu]`; it is `P` inside the range, `Pl` below it and `Pu` above it |
| FrozenValuation.FrozenTokens | backtestengine.py:39-53 | for `L >= 0` the corrected balances are never negative |
| FrozenValuation.FrozenAgreesInRange | backtestengine.py:39-57 | inside the range the corrected balances are `x_of_P` and `y_of_P`, and the corrected value is `V_LP` |
| FrozenValuation.FrozenBelowRange | backtestengine.py:39-45 | below `Pl` the corrected balances are constant: all X, the X balance at `Pl` |
| FrozenValuation.FrozenAboveRange | backtestengine.py:47-53 | above `Pu` the corrected balances are constant: all Y, the Y balance at `Pu` |
| FrozenValuation.TokensValue | backtestengine.py:27-33 | the tokens of liquidity `L` at price `C`, valued at `P`, are worth `L*(1/√C - 1/√Pu)*P + L*(√C - √Pl)` |
| FrozenValuation.TokensGap | backtestengine.py:55-60 | the hold value minus the value of the tokens of any price `C` is `L/(√Pd√C) * (√C - √Pd) * (P - √Pd√C)` |
| FrozenValuation.GapNonNeg | backtestengine.py:55-60 | a gap of the form `(L·id·iq)·(a·(p - b))` is non-negative when `L >= 0`, the inverse roots are positive and `a·(sp² - b) >= 0` with `p == sp²` |
| FrozenValuation.FrozenGapSign | backtestengine.py:55-60 | the gap identity together with the signs of its factors: when the clamped root lies between the deposit root and the current root, the tokens are worth no more than holding |
| FrozenValuation.TokensBetweenBelowHodl | backtestengine.py:55-60 | the tokens of any price between the deposit price and `P` are worth no more than holding at `P` |
| FrozenValuation.FrozenLPBelowHodl | backtestengine.py:55-60 | with the corrected valuation a consistent in-range deposit with `L >= 0` is never worth more than holding, at any positive price |
| FrozenValuation.ILFrozenAgreesInRange | backtestengine.py:70 | inside the range the corrected IL is the dashboard's IL |
| FrozenValuation.ILFrozenNonPositive | backtestengine.py:67-77 | for an in-range deposit of `V > 0` the corrected IL is defined and `<= 0` at every positive price |
| FrozenValuation.FrozenExample | backtestengine.py:55-57 | the corrected value of the example position at `P = 1.69` is 112.5, below the hold value 143.125 |
| MarketChart.Fallback | test_dummy.py:32 | the fallback is thirty entries, each `1.0` |
| MarketChart.DropNaN | test_dummy.py:30 | removing NaNs never lengthens the series, and a value survives exactly when it was a numeric sample |
| MarketChart.DropNonPositive | test_dummy.py:31 | removing non-positive values never lengthens the series; a value survives exactly when it was present and positive; every survivor is positive |
| MarketChart.Survivors | test_dummy.py:30-31 | every value left after both filters is positive, and a value is left exactly when it was a positive numeric sample |
| MarketChart.GetMarketChart | test_dummy.py:24-34 | the result is never empty, every entry is strictly positive, and a failed request gives the fallback |
| MarketChart.DropNaNAppend | test_dummy.py:30 | dropping NaNs from a concatenation concatenates the two filtered parts |
| MarketChart.DropNonPositiveAppend | test_dummy.py:31 | dropping non-positive values from a concatenation concatenates the two filtered parts |
| MarketChart.SurvivorsAppend | test_dummy.py:30-31 | the cleaned concatenation is the concatenation of the cleaned parts, so survivors keep their original order |
| MarketChart.SurvivorsSingleton | test_dummy.py:30-31 | one sample survives exactly when it is a positive number |
| MarketChart.SurvivorsNonEmpty | test_dummy.py:30-32 | something survives exactly when some sample is a positive number |
| MarketChart.GetMarketChartCases | test_dummy.py:28-34 | with at least one positive numeric sample the result is exactly the survivors; with none it is the fallback |
| MarketChart.DropNaNOfValues | test_dummy.py:30 | numeric samples lose nothing to the NaN filter |
| MarketChart.DropNonPositiveOfPositive | test_dummy.py:31 | positive values lose nothing to the positivity filter |
| MarketChart.SurvivorsOfPositive | test_dummy.py:30-31 | a series of positive values passes through both filters unchanged |
| MarketChart.GetMarketChartIdempotent | test_dummy.py:28-34 | cleaning is idempotent: feeding the result back in as a successful response returns the same series |

## Left out

- IEEE-754 float64 rounding. Prices, liquidity and values are exact reals, so "the normalisation factor is 1" is a fact about exact arithmetic. Division by zero is kept as `NonFinite`; the actual inf/nan values it produces and how they propagate are not modelled.
- `np.sqrt` is replaced by a root witness carried with each price. So prices are strictly positive, and `P_lower = 0` or negative prices (which numpy maps to 0 or nan) are outside the model.
- `np.linspace` (backtestengine.py:67): the grid is an arbitrary input sequence of rooted prices.
- The array form of `x_of_P`, `y_of_P` and `V_LP`: only the scalar form is modelled, and the curve maps it over the grid.
- The Streamlit inputs, metrics and layout (backtestengine.py:1-16, 81-85; test_dummy.py:1-22, 36-52), and the Plotly figure (backtestengine.py:72-75). These are presentation only.
- The HTTP request, JSON decoding, the cache with its time-to-live, the timestamps and the prints (test_dummy.py:7-27). Only their outcome is modelled, as `Fetch`.
- Responses whose `prices` entries are malformed, or hold `null`: the code raises inside its `try`, so these are modelled as `Failed`. A response without a `prices` key is `Ok([])`.
- Infinite samples in a response are not represented: a `Sample` is a finite number or NaN.

## Findings

| source | as written | input that shows it | evidently intended | confidence | as-written member | corrected member |
|---|---|---|---|---|---|---|
| backtestengine.py:39-57 | `x_of_P` and `y_of_P` clamp their closed forms at 0 but keep evaluating them outside `[P_lower, P_upper]`, so above `P_upper` the Y balance keeps growing with `√P` | deposit 100 at `P_deposit = 1` into `[0.81, 1.44]` (`L = 375`, `x0 = 62.5`, `y0 = 37.5`); at `P = 1.69`, inside the plotted grid `[0.8 P_lower, 1.3 P_upper]`, `V_LP = 150 > V_HODL = 143.125`, so IL is about +4.8% | outside the range the balances stay at their values at the nearer bound, so the position is never worth more than holding (`V_LP = 112.5` at `P = 1.69`) | not executed | ImpermanentLoss.ILPositiveAboveRange | FrozenValuation.ILFrozenNonPositive |
