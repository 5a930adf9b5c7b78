/**
 * One asset of the portfolio compositor: its earliest date, its truncation
 * to the common start date, and the columns computed for it before the
 * merge (daily return, leveraged return, weighted leveraged return and the
 * simulated price compounded from the weighted return).
 */
module Assets {
  import opened Wrappers
  import opened Series

  /** One row of one asset's table after its columns are computed. */
  datatype AssetRow = AssetRow(
    date: int,
    dailyReturn: Option<real>,
    adjClose: real,
    leveragedReturn: real,
    simulatedPrice: real,
    weightedReturn: real)

  /** A downloaded history is indexed by date: strictly increasing, no duplicates. */
  predicate DatesIncrease(h: seq<Quote>)
  {
    forall i, j :: 0 <= i < j < |h| ==> h[i].date < h[j].date
  }

  predicate RowsIncrease(t: seq<AssetRow>)
  {
    forall i, j :: 0 <= i < j < |t| ==> t[i].date < t[j].date
  }

  /** The smallest date of a non-empty history (the index minimum). */
  function EarliestDate(h: seq<Quote>): (d: int)
    requires |h| > 0
    ensures exists i :: 0 <= i < |h| && h[i].date == d
    ensures forall i :: 0 <= i < |h| ==> d <= h[i].date
  {
    if |h| == 1 then h[0].date
    else
      var rest := EarliestDate(h[1..]);
      if h[0].date <= rest then h[0].date else rest
  }

  /** The rows of a history whose date is on or after the start date, in order. */
  function Truncate(h: seq<Quote>, start: int): (t: seq<Quote>)
    ensures forall q :: q in t ==> q in h && q.date >= start
    ensures forall q :: q in h && q.date >= start ==> q in t
    ensures DatesIncrease(h) ==> DatesIncrease(t)
  {
    if h == [] then []
    else
      var rest := Truncate(h[1..], start);
      assert forall q :: q in h[1..] ==> q in h;
      if h[0].date >= start then [h[0]] + rest else rest
  }

  /** A start date no later than any row keeps the whole history. */
  lemma {:induction false} TruncateKeepsLaterHistory(h: seq<Quote>, start: int)
    requires forall i :: 0 <= i < |h| ==> h[i].date >= start
    ensures Truncate(h, start) == h
  {
    if h != [] {
      TruncateKeepsLaterHistory(h[1..], start);
    }
  }

  /**
   * The columns of one asset (its truncated history must be non-empty):
   * pct_change, the leveraged return with row 0 forced to 0, that return
   * times the weight, and the cumulative product of (1 + weighted return)
   * scaled by the asset's own first close.
   */
  function AssetColumns(t: seq<Quote>, scalar: real, weight: real): (r: seq<AssetRow>)
    requires |t| > 0 && Positive(Closes(t))
    ensures |r| == |t|
    ensures forall i :: 0 <= i < |t| ==> r[i].date == t[i].date && r[i].adjClose == t[i].adjClose
    ensures forall i :: 0 <= i < |t| ==> r[i].dailyReturn == PctChange(Closes(t))[i]
    ensures forall i :: 0 <= i < |t| ==> (r[i].dailyReturn.None? <==> i == 0)
    ensures forall i :: 0 <= i < |t| ==> r[i].leveragedReturn == LeveragedReturns(Closes(t), scalar)[i]
    ensures r[0].leveragedReturn == 0.0 && r[0].simulatedPrice == t[0].adjClose
    ensures WeightedByPortfolioWeight(r, weight)
    ensures AssetPricesCompound(r)
    ensures AssetPrices(r) == CumProdPrices(t[0].adjClose, Scaled(LeveragedReturns(Closes(t), scalar), weight))
  {
    var p := Closes(t);
    var lev := LeveragedReturns(p, scalar);
    var weighted := Scaled(lev, weight);
    var sim := CumProdPrices(p[0], weighted);
    var r := Zip(t, PctChange(p), lev, weighted, sim);
    ZipFacts(r, lev, weighted, sim, weight, p[0]);
    r
  }

  /** Row i of the asset table holds row i of each column. */
  function Zip(t: seq<Quote>, daily: seq<Option<real>>, lev: seq<real>, weighted: seq<real>, sim: seq<real>): (r: seq<AssetRow>)
    requires |daily| == |lev| == |weighted| == |sim| == |t|
    ensures |r| == |t|
    ensures forall i :: 0 <= i < |t| ==>
      r[i] == AssetRow(t[i].date, daily[i], t[i].adjClose, lev[i], sim[i], weighted[i])
  {
    seq(|t|, i requires 0 <= i < |t| => AssetRow(t[i].date, daily[i], t[i].adjClose, lev[i], sim[i], weighted[i]))
  }

  /** The facts about the zipped columns that need arithmetic, proved apart from the column formulas. */
  lemma ZipFacts(r: seq<AssetRow>, lev: seq<real>, weighted: seq<real>, sim: seq<real>, weight: real, first: real)
    requires |r| == |lev| > 0 && lev[0] == 0.0
    requires weighted == Scaled(lev, weight) && sim == CumProdPrices(first, weighted)
    requires forall i :: 0 <= i < |r| ==>
      r[i].leveragedReturn == lev[i] && r[i].weightedReturn == weighted[i] && r[i].simulatedPrice == sim[i]
    ensures r[0].simulatedPrice == first
    ensures WeightedByPortfolioWeight(r, weight)
    ensures AssetPricesCompound(r)
    ensures AssetPrices(r) == sim
  {
    WeightedRows(r, lev, weight);
    CumProdRecurrence(first, weighted);
    assert AssetPrices(r) == sim;
    assert WeightedColumn(r) == weighted;
  }

  lemma WeightedRows(r: seq<AssetRow>, lev: seq<real>, weight: real)
    requires |r| == |lev|
    requires forall i :: 0 <= i < |r| ==>
      r[i].leveragedReturn == lev[i] && r[i].weightedReturn == Scaled(lev, weight)[i]
    ensures WeightedByPortfolioWeight(r, weight)
  {
  }

  /** Each row's weighted return is its leveraged return times the weight. */
  predicate WeightedByPortfolioWeight(r: seq<AssetRow>, weight: real)
  {
    forall i :: 0 <= i < |r| ==> r[i].weightedReturn == weight * r[i].leveragedReturn
  }

  function WeightedColumn(r: seq<AssetRow>): (s: seq<real>)
    ensures |s| == |r|
    ensures forall i :: 0 <= i < |r| ==> s[i] == r[i].weightedReturn
  {
    seq(|r|, i requires 0 <= i < |r| => r[i].weightedReturn)
  }

  /** Each simulated price is the previous one times (1 + the weighted return on its row). */
  predicate AssetPricesCompound(r: seq<AssetRow>)
  {
    Compounds(AssetPrices(r), WeightedColumn(r))
  }

  function AssetPrices(r: seq<AssetRow>): (s: seq<real>)
    ensures |s| == |r|
    ensures forall i :: 0 <= i < |r| ==> s[i] == r[i].simulatedPrice
  {
    seq(|r|, i requires 0 <= i < |r| => r[i].simulatedPrice)
  }

  /** An asset whose closes never move keeps its simulated price at its first close. */
  lemma ConstantAssetStaysFlat(t: seq<Quote>, scalar: real, weight: real)
    requires |t| > 0 && Positive(Closes(t))
    requires forall i :: 0 <= i < |t| ==> t[i].adjClose == t[0].adjClose
    ensures forall i :: 0 <= i < |t| ==> AssetColumns(t, scalar, weight)[i].simulatedPrice == t[0].adjClose
  {
    var p := Closes(t);
    var weighted := Scaled(LeveragedReturns(p, scalar), weight);
    forall i | 0 <= i < |t|
      ensures weighted[i] == 0.0
    {
      if i > 0 {
        LeveragedReturnIsScaledMove(p, scalar, i);
      }
    }
    ZeroReturnsStayFlat(p[0], weighted);
  }

  /**
   * With weight 1 an asset's simulated price is the single-asset
   * simulator's price for the same history and leverage.
   */
  lemma FullWeightMatchesSimulator(t: seq<Quote>, scalar: real)
    requires |t| > 0 && Positive(Closes(t))
    ensures AssetPrices(AssetColumns(t, scalar, 1.0)) == CumProdPrices(t[0].adjClose, LeveragedReturns(Closes(t), scalar))
  {
    var lev := LeveragedReturns(Closes(t), scalar);
    assert Scaled(lev, 1.0) == lev;
  }
}
