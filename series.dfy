/**
 * Whole-column formulas on one price series: pandas' pct_change, the
 * leveraged daily return, and the cumulative product that turns returns
 * back into prices. The simulator and the portfolio compositor share them.
 */
module Series {
  import opened Wrappers

  /** One row of daily market data: the trading date and the adjusted close. */
  datatype Quote = Quote(date: int, adjClose: real)

  /** The adjusted-close column of a table of quotes. */
  function Closes(qs: seq<Quote>): (p: seq<real>)
    ensures |p| == |qs|
    ensures forall i :: 0 <= i < |qs| ==> p[i] == qs[i].adjClose
  {
    seq(|qs|, i requires 0 <= i < |qs| => qs[i].adjClose)
  }

  predicate Positive(p: seq<real>)
  {
    forall i :: 0 <= i < |p| ==> p[i] > 0.0
  }

  /**
   * pandas' pct_change: no value on the first row (NaN), and on every
   * later row the relative change from the previous close.
   */
  function PctChange(p: seq<real>): (r: seq<Option<real>>)
    requires Positive(p)
    ensures |r| == |p|
    ensures forall i :: 0 <= i < |p| ==> (r[i].None? <==> i == 0)
  {
    seq(|p|, i requires 0 <= i < |p| => if i == 0 then None else Some(p[i] / p[i - 1] - 1.0))
  }

  /** Row i's daily return is the relative move from close i - 1 to close i. */
  lemma PctChangeIsRelativeMove(p: seq<real>, i: nat)
    requires Positive(p) && 0 < i < |p|
    ensures p[i - 1] * (1.0 + PctChange(p)[i].value) == p[i]
  {
  }

  /**
   * The leveraged daily return: the scalar times the daily return, with
   * the first row forced to 0 (it has no previous close).
   */
  function LeveragedReturns(p: seq<real>, scalar: real): (r: seq<real>)
    requires Positive(p)
    ensures |r| == |p|
    ensures |p| > 0 ==> r[0] == 0.0
  {
    var daily := PctChange(p);
    seq(|p|, i requires 0 <= i < |p| => if i == 0 then 0.0 else scalar * daily[i].value)
  }

  /** Row i's leveraged return is the scalar times the move of the close, relative to close i - 1. */
  lemma LeveragedReturnIsScaledMove(p: seq<real>, scalar: real, i: nat)
    requires Positive(p) && 0 < i < |p|
    ensures p[i - 1] * LeveragedReturns(p, scalar)[i] == scalar * (p[i] - p[i - 1])
  {
    var d := PctChange(p)[i].value;
    PctChangeIsRelativeMove(p, i);
    assert p[i - 1] * d == p[i] - p[i - 1];
    assert p[i - 1] * (scalar * d) == scalar * (p[i - 1] * d);
  }

  /** The returns of a column, each multiplied by a portfolio weight. */
  function Scaled(r: seq<real>, weight: real): (w: seq<real>)
    ensures |w| == |r|
    ensures forall i :: 0 <= i < |r| ==> w[i] == weight * r[i]
  {
    seq(|r|, i requires 0 <= i < |r| => weight * r[i])
  }

  /** The product of (1 + r[k]) over the whole sequence. */
  function Growth(r: seq<real>): real
  {
    if |r| == 0 then 1.0 else Growth(r[..|r| - 1]) * (1.0 + r[|r| - 1])
  }

  /**
   * The cumulative-product formulation: row i is the starting price times
   * the product of (1 + r[k]) for k <= i.
   */
  function CumProdPrices(start: real, r: seq<real>): (s: seq<real>)
    ensures |s| == |r|
  {
    seq(|r|, i requires 0 <= i < |r| => start * Growth(r[..i + 1]))
  }

  /** The price one row later: the previous price times (1 + the row's return). */
  function Grow(prev: real, ret: real): real
  {
    prev * (1.0 + ret)
  }

  /** Each row of s is the previous row times (1 + the return on that row). */
  predicate Compounds(s: seq<real>, r: seq<real>)
  {
    |s| == |r| && forall i {:trigger r[i]} :: 0 < i < |r| ==> s[i] == Grow(s[i - 1], r[i])
  }

  /** The cumulative product obeys the step-by-step recurrence of the simulator's loop. */
  lemma CumProdRecurrence(start: real, r: seq<real>)
    ensures |r| > 0 && r[0] == 0.0 ==> CumProdPrices(start, r)[0] == start
    ensures Compounds(CumProdPrices(start, r), r)
  {
    if |r| > 0 {
      assert r[..1][..0] == [];
      assert Growth(r[..1]) == Growth(r[..1][..0]) * (1.0 + r[0]);
    }
    forall i | 0 < i < |r|
      ensures CumProdPrices(start, r)[i] == Grow(CumProdPrices(start, r)[i - 1], r[i])
    {
      CumProdStep(start, r, i);
    }
  }

  lemma CumProdStep(start: real, r: seq<real>, i: nat)
    requires 0 < i < |r|
    ensures CumProdPrices(start, r)[i] == Grow(CumProdPrices(start, r)[i - 1], r[i])
  {
    assert r[..i + 1][..i] == r[..i];
    var g := Growth(r[..i]);
    assert Growth(r[..i + 1]) == g * (1.0 + r[i]);
    MulAssoc(start, g, 1.0 + r[i]);
  }

  lemma MulAssoc(a: real, b: real, c: real)
    ensures a * (b * c) == (a * b) * c
  {
  }

  /**
   * Conversely, a column that starts at the given price and follows the
   * recurrence is the cumulative product: the loop and the closed form agree.
   */
  lemma RecurrenceIsCumProd(start: real, r: seq<real>, s: seq<real>)
    requires Compounds(s, r) && |r| > 0 && r[0] == 0.0 && s[0] == start
    ensures s == CumProdPrices(start, r)
  {
    var c := CumProdPrices(start, r);
    CumProdRecurrence(start, r);
    forall i | 0 <= i < |r|
      ensures s[i] == c[i]
    {
      RecurrenceAgreesUpTo(start, r, s, i);
    }
  }

  lemma {:induction false} RecurrenceAgreesUpTo(start: real, r: seq<real>, s: seq<real>, i: nat)
    requires |s| == |r| > 0 && r[0] == 0.0 && s[0] == start && i < |r|
    requires Compounds(s, r) && Compounds(CumProdPrices(start, r), r)
    requires CumProdPrices(start, r)[0] == start
    ensures s[i] == CumProdPrices(start, r)[i]
  {
    if i > 0 {
      RecurrenceAgreesUpTo(start, r, s, i - 1);
    }
  }

  /** With every return 0 the cumulative product stays at the starting price. */
  lemma {:induction false} ZeroReturnsStayFlat(start: real, r: seq<real>)
    requires forall i :: 0 <= i < |r| ==> r[i] == 0.0
    ensures forall i :: 0 <= i < |r| ==> CumProdPrices(start, r)[i] == start
  {
    forall i | 0 <= i < |r|
      ensures CumProdPrices(start, r)[i] == start
    {
      GrowthOfZeros(r[..i + 1]);
    }
  }

  lemma {:induction false} GrowthOfZeros(r: seq<real>)
    requires forall i :: 0 <= i < |r| ==> r[i] == 0.0
    ensures Growth(r) == 1.0
  {
    if |r| > 0 {
      GrowthOfZeros(r[..|r| - 1]);
    }
  }

  /** With leverage 0 the leveraged price never moves from the first close. */
  lemma ZeroLeverageStaysFlat(p: seq<real>)
    requires Positive(p) && |p| > 0
    ensures forall i :: 0 <= i < |p| ==> CumProdPrices(p[0], LeveragedReturns(p, 0.0))[i] == p[0]
  {
    var r := LeveragedReturns(p, 0.0);
    forall i | 0 <= i < |r|
      ensures r[i] == 0.0
    {
      if i > 0 {
        LeveragedReturnIsScaledMove(p, 0.0, i);
      }
    }
    ZeroReturnsStayFlat(p[0], r);
  }

  /**
   * A constant price series has zero daily returns, so for any leverage
   * the simulated series equals the input series.
   */
  lemma ConstantPricesStayFlat(p: seq<real>, scalar: real)
    requires Positive(p) && |p| > 0
    requires forall i :: 0 <= i < |p| ==> p[i] == p[0]
    ensures CumProdPrices(p[0], LeveragedReturns(p, scalar)) == p
  {
    var r := LeveragedReturns(p, scalar);
    forall i | 0 <= i < |r|
      ensures r[i] == 0.0
    {
      if i > 0 {
        LeveragedReturnIsScaledMove(p, scalar, i);
      }
    }
    ZeroReturnsStayFlat(p[0], r);
  }

  /**
   * Telescoping: with leverage 1 the product of (1 + daily return) up to
   * row i is p[i] / p[0], so the simulated series reproduces the closes.
   */
  lemma UnitLeverageReproducesPrices(p: seq<real>)
    requires Positive(p) && |p| > 0
    ensures CumProdPrices(p[0], LeveragedReturns(p, 1.0)) == p
  {
    var c := CumProdPrices(p[0], LeveragedReturns(p, 1.0));
    forall i | 0 <= i < |p|
      ensures c[i] == p[i]
    {
      GrowthTelescopes(p, i);
    }
  }

  lemma {:induction false} GrowthTelescopes(p: seq<real>, i: nat)
    requires Positive(p) && i < |p|
    ensures p[0] * Growth(LeveragedReturns(p, 1.0)[..i + 1]) == p[i]
  {
    var r := LeveragedReturns(p, 1.0);
    if i == 0 {
      assert r[..1][..0] == [];
      assert Growth(r[..1]) == Growth(r[..1][..0]) * (1.0 + r[0]);
    } else {
      GrowthTelescopes(p, i - 1);
      var g := Growth(r[..i]);
      assert Growth(r[..i + 1]) == g * (1.0 + r[i]) by {
        assert r[..i + 1][..i] == r[..i];
      }
      LeveragedReturnIsScaledMove(p, 1.0, i);
      TelescopeStep(p[0], g, p[i - 1], r[i], p[i]);
    }
  }

  /** One step of the telescoping product: p0 * g == a and a * x == b - a give p0 * g * (1 + x) == b. */
  lemma TelescopeStep(p0: real, g: real, a: real, x: real, b: real)
    requires p0 * g == a && a * x == 1.0 * (b - a)
    ensures p0 * (g * (1.0 + x)) == b
  {
    assert p0 * (g * (1.0 + x)) == (p0 * g) * (1.0 + x);
    assert a * (1.0 + x) == a + a * x;
  }
}
