/** The price series behind the dashboard: the daily closes of an asset as the
    price API returns them, cleaned before use.

    The request itself is not modelled. Its outcome is a `Fetch`: either the
    request or the decoding failed (`Failed`), or the decoded list of second
    components of the `prices` entries (`Ok`, empty when the key is missing).
    Each sample is a number or NaN.
 */
module MarketChart {

  /** One decoded price: a float64 value or NaN. */
  datatype Sample = NaN | Num(v: real)

  /** The outcome of asking the API for a price series. */
  datatype Fetch = Failed | Ok(samples: seq<Sample>)

  /** Length of the series used when nothing usable came back. */
  const FallbackLength: nat := 30

  /** Thirty copies of `1.0`: the series used when nothing usable came back. */
  function Fallback(): (r: seq<real>)
    ensures |r| == FallbackLength
    ensures forall i :: 0 <= i < |r| ==> r[i] == 1.0
  {
    seq(FallbackLength, _ => 1.0)
  }

  /** A sample that survives both filters: a number, and a positive one. */
  predicate Usable(s: Sample) {
    s.Num? && s.v > 0.0
  }

  /** The samples with the NaNs removed, in order. */
  function DropNaN(s: seq<Sample>): (r: seq<real>)
    ensures |r| <= |s|
    ensures forall x :: x in r <==> Num(x) in s
  {
    if s == [] then []
    else
      var rest := DropNaN(s[1..]);
      assert s == [s[0]] + s[1..];
      match s[0]
      case NaN => rest
      case Num(v) => [v] + rest
  }

  /** The values that are strictly positive, in order. */
  function DropNonPositive(xs: seq<real>): (r: seq<real>)
    ensures |r| <= |xs|
    ensures forall x :: x in r <==> x in xs && x > 0.0
    ensures forall i :: 0 <= i < |r| ==> r[i] > 0.0
  {
    if xs == [] then []
    else
      var rest := DropNonPositive(xs[1..]);
      assert xs == [xs[0]] + xs[1..];
      if xs[0] > 0.0 then [xs[0]] + rest else rest
  }

  /** What is left of the samples after both filters. */
  function Survivors(s: seq<Sample>): (r: seq<real>)
    ensures forall i :: 0 <= i < |r| ==> r[i] > 0.0
    ensures forall x :: x in r <==> Num(x) in s && x > 0.0
  {
    DropNonPositive(DropNaN(s))
  }

  /** The cleaned series: the surviving samples, or the fallback when the
      request failed or nothing survived. Never empty, never non-positive. */
  function GetMarketChart(f: Fetch): (r: seq<real>)
    ensures |r| > 0
    ensures forall i :: 0 <= i < |r| ==> r[i] > 0.0
    ensures f.Failed? ==> r == Fallback()
  {
    match f
    case Failed => Fallback()
    case Ok(s) =>
      var p := Survivors(s);
      if |p| > 0 then p else Fallback()
  }

  /** Dropping NaNs piece by piece is dropping them from the whole. */
  lemma {:induction false} DropNaNAppend(a: seq<Sample>, b: seq<Sample>)
    ensures DropNaN(a + b) == DropNaN(a) + DropNaN(b)
  {
    if a == [] {
      assert a + b == b;
    } else {
      assert (a + b)[1..] == a[1..] + b;
      DropNaNAppend(a[1..], b);
    }
  }

  /** Dropping non-positive values piece by piece is dropping them from the whole. */
  lemma {:induction false} DropNonPositiveAppend(a: seq<real>, b: seq<real>)
    ensures DropNonPositive(a + b) == DropNonPositive(a) + DropNonPositive(b)
  {
    if a == [] {
      assert a + b == b;
    } else {
      assert (a + b)[1..] == a[1..] + b;
      DropNonPositiveAppend(a[1..], b);
    }
  }

  /** The filters commute with concatenation: cleaning a series piece by piece
      is cleaning it whole, so the surviving samples keep their order. */
  lemma SurvivorsAppend(a: seq<Sample>, b: seq<Sample>)
    ensures Survivors(a + b) == Survivors(a) + Survivors(b)
  {
    DropNaNAppend(a, b);
    DropNonPositiveAppend(DropNaN(a), DropNaN(b));
  }

  /** A single sample survives exactly when it is a positive number. */
  lemma SurvivorsSingleton(s: Sample)
    ensures Survivors([s]) == if Usable(s) then [s.v] else []
  {
    assert [s][1..] == [];
  }

  /** Something survives exactly when some sample is a positive number. */
  lemma SurvivorsNonEmpty(s: seq<Sample>)
    ensures |Survivors(s)| > 0 <==> exists i :: 0 <= i < |s| && Usable(s[i])
  {
    if |Survivors(s)| > 0 {
      var x := Survivors(s)[0];
      assert x in Survivors(s);
      var i :| 0 <= i < |s| && s[i] == Num(x);
      assert Usable(s[i]);
    }
    if exists i :: 0 <= i < |s| && Usable(s[i]) {
      var i :| 0 <= i < |s| && Usable(s[i]);
      assert s[i].v in Survivors(s);
    }
  }

  /** When some sample is a positive number the series is exactly the
      survivors; otherwise (and on failure) it is the fallback. */
  lemma GetMarketChartCases(f: Fetch)
    ensures f.Ok? && (exists i :: 0 <= i < |f.samples| && Usable(f.samples[i]))
            ==> GetMarketChart(f) == Survivors(f.samples)
    ensures f.Ok? && (forall i :: 0 <= i < |f.samples| ==> !Usable(f.samples[i]))
            ==> GetMarketChart(f) == Fallback()
  {
    if f.Ok? {
      SurvivorsNonEmpty(f.samples);
    }
  }

  /** Values read back as samples, as a successful response would carry them. */
  function AsSamples(xs: seq<real>): (s: seq<Sample>)
    ensures |s| == |xs|
    ensures forall i :: 0 <= i < |xs| ==> s[i] == Num(xs[i])
  {
    seq(|xs|, i requires 0 <= i < |xs| => Num(xs[i]))
  }

  /** Values read back as samples lose nothing to the NaN filter. */
  lemma {:induction false} DropNaNOfValues(xs: seq<real>)
    ensures DropNaN(AsSamples(xs)) == xs
  {
    if xs != [] {
      assert AsSamples(xs)[1..] == AsSamples(xs[1..]);
      DropNaNOfValues(xs[1..]);
      assert xs == [xs[0]] + xs[1..];
    }
  }

  /** Positive values lose nothing to the positivity filter. */
  lemma {:induction false} DropNonPositiveOfPositive(xs: seq<real>)
    requires forall i :: 0 <= i < |xs| ==> xs[i] > 0.0
    ensures DropNonPositive(xs) == xs
  {
    if xs != [] {
      DropNonPositiveOfPositive(xs[1..]);
      assert xs == [xs[0]] + xs[1..];
    }
  }

  /** A series of positive values passes through both filters unchanged. */
  lemma SurvivorsOfPositive(xs: seq<real>)
    requires forall i :: 0 <= i < |xs| ==> xs[i] > 0.0
    ensures Survivors(AsSamples(xs)) == xs
  {
    DropNaNOfValues(xs);
    DropNonPositiveOfPositive(xs);
  }

  /** Cleaning is idempotent: feeding the cleaned series back in, as a
      successful response, yields the same series. */
  lemma GetMarketChartIdempotent(f: Fetch)
    ensures GetMarketChart(Ok(AsSamples(GetMarketChart(f)))) == GetMarketChart(f)
  {
    var r := GetMarketChart(f);
    SurvivorsOfPositive(r);
  }
}
