/**
 * The portfolio compositor: validates the three parallel input lists,
 * finds the common start date, builds each asset's table from its history
 * truncated to that date, outer-merges the tables one by one on Date, adds
 * the two total columns (summing whatever cells are present) and finally
 * drops every row that still has a missing value.
 *
 * The downloads are parameters: histories[k] is the daily history of
 * tickers[k], indexed by strictly increasing dates.
 */
module Portfolio {
  import opened Wrappers
  import opened Series
  import opened Assets
  import opened Merge

  datatype Error =
    | LengthMismatch        // tickers, leverage scalars and weights differ in length
    | WeightsDoNotSumToOne  // the weights are not within 1e-6 of 1
    | NoRowsFromStart       // an asset has no row on or after the common start date

  /** A row of the returned table: one complete row per asset, and the two totals. */
  datatype PortfolioRow = PortfolioRow(date: int, assets: seq<AssetRow>, totalReturn: real, totalPrice: real)

  /** A merged row with the two total columns added, before missing values are dropped. */
  datatype TotalRow = TotalRow(date: int, cells: seq<Option<AssetRow>>, totalReturn: real, totalPrice: real)

  // ---------------------------------------------------------------------
  // Validation
  // ---------------------------------------------------------------------

  /** Python's sum: the left-to-right sum starting from 0. */
  function Sum(s: seq<real>): real
  {
    if s == [] then 0.0 else Sum(s[..|s| - 1]) + s[|s| - 1]
  }

  function Abs(x: real): real
  {
    if x < 0.0 then -x else x
  }

  const Tolerance: real := 0.000001

  predicate WeightsSumToOne(weights: seq<real>)
  {
    Abs(Sum(weights) - 1.0) < Tolerance
  }

  predicate LengthsMatch(tickers: seq<string>, scalars: seq<real>, weights: seq<real>)
  {
    |tickers| == |scalars| && |tickers| == |weights|
  }

  /** An empty weight list sums to 0, so it never passes the weight check. */
  lemma NoWeightsRejected(weights: seq<real>)
    requires WeightsSumToOne(weights)
    ensures |weights| > 0
  {
  }

  // ---------------------------------------------------------------------
  // The common start date
  // ---------------------------------------------------------------------

  predicate WellFormed(histories: seq<seq<Quote>>)
  {
    forall k :: 0 <= k < |histories| ==> DatesIncrease(histories[k]) && Positive(Closes(histories[k]))
  }

  predicate AllDownloaded(histories: seq<seq<Quote>>)
  {
    forall k :: 0 <= k < |histories| ==> histories[k] != []
  }

  /** The latest of the assets' first dates: no asset's first date is later, and some asset starts on it. */
  function LatestFirstDate(histories: seq<seq<Quote>>): (d: int)
    requires |histories| > 0 && AllDownloaded(histories)
    ensures forall k :: 0 <= k < |histories| ==> EarliestDate(histories[k]) <= d
    ensures exists k :: 0 <= k < |histories| && EarliestDate(histories[k]) == d
  {
    var last := EarliestDate(histories[|histories| - 1]);
    if |histories| == 1 then last
    else
      var front := histories[..|histories| - 1];
      var d := LatestFirstDate(front);
      assert forall k :: 0 <= k < |front| ==> front[k] == histories[k];
      if last > d then last else d
  }

  /**
   * The loop over the downloads that keeps the latest first date seen so
   * far, starting from no date. A history with no rows has no first date,
   * and the compositor then has no rows to start from.
   */
  method CommonStart(histories: seq<seq<Quote>>) returns (start: Option<int>)
    requires |histories| > 0
    ensures start.Some? <==> AllDownloaded(histories)
    ensures start.Some? ==> start.value == LatestFirstDate(histories)
  {
    start := None;
    for k := 0 to |histories|
      invariant forall j :: 0 <= j < k ==> histories[j] != []
      invariant start.None? <==> k == 0
      invariant k > 0 ==> AllDownloaded(histories[..k]) && start.value == LatestFirstDate(histories[..k])
    {
      if histories[k] == [] {
        return None;
      }
      var earliest := EarliestDate(histories[k]);
      LatestFirstDateStep(histories, k);
      if start.None? || earliest > start.value {
        start := Some(earliest);
      }
    }
    assert histories[..|histories|] == histories;
  }

  /** The latest first date of one more history: the later of the previous one and its first date. */
  lemma LatestFirstDateStep(histories: seq<seq<Quote>>, k: nat)
    requires k < |histories| && forall j :: 0 <= j <= k ==> histories[j] != []
    ensures AllDownloaded(histories[..k + 1])
    ensures k > 0 ==> AllDownloaded(histories[..k])
    ensures LatestFirstDate(histories[..k + 1]) ==
      if k == 0 || EarliestDate(histories[k]) > LatestFirstDate(histories[..k])
      then EarliestDate(histories[k]) else LatestFirstDate(histories[..k])
  {
    var hs := histories[..k + 1];
    assert forall j :: 0 <= j < k + 1 ==> hs[j] == histories[j];
    assert hs[..k] == histories[..k];
  }

  /** The history has a row on or after the date: its last row is not earlier. */
  predicate Reaches(h: seq<Quote>, start: int)
  {
    h != [] && h[|h| - 1].date >= start
  }

  /** Truncating a history to a date leaves rows exactly when the history reaches that date. */
  lemma TruncateNonEmpty(h: seq<Quote>, start: int)
    requires DatesIncrease(h)
    ensures Truncate(h, start) != [] <==> Reaches(h, start)
  {
    var t := Truncate(h, start);
    if Reaches(h, start) {
      assert h[|h| - 1] in h;
      assert h[|h| - 1] in t;
    }
    if t != [] {
      assert t[0] in h;
      var i :| 0 <= i < |h| && h[i] == t[0];
      assert i == |h| - 1 || h[i].date < h[|h| - 1].date;
    }
  }

  /** Every asset has a row on or after the start date. */
  predicate Covered(histories: seq<seq<Quote>>, start: int)
  {
    forall k :: 0 <= k < |histories| ==> Reaches(histories[k], start)
  }

  /** Every asset has a row on or after the common start date. */
  predicate Ready(histories: seq<seq<Quote>>)
  {
    |histories| > 0 && AllDownloaded(histories) && Covered(histories, LatestFirstDate(histories))
  }

  // ---------------------------------------------------------------------
  // One asset's table
  // ---------------------------------------------------------------------

  lemma TruncateKeepsPositive(h: seq<Quote>, start: int)
    requires Positive(Closes(h))
    ensures Positive(Closes(Truncate(h, start)))
  {
    var t := Truncate(h, start);
    forall i | 0 <= i < |t|
      ensures Closes(t)[i] > 0.0
    {
      assert t[i] in h;
      var j :| 0 <= j < |h| && h[j] == t[i];
      assert Closes(h)[j] > 0.0;
    }
  }

  /** The table of one asset: its history from the start date on, with the computed columns. */
  function AssetTable(h: seq<Quote>, start: int, scalar: real, weight: real): (r: seq<AssetRow>)
    requires DatesIncrease(h) && Positive(Closes(h)) && Reaches(h, start)
    ensures RowsIncrease(r)
    ensures forall x :: x in r ==> x.date >= start
  {
    var t := Truncate(h, start);
    TruncateNonEmpty(h, start);
    TruncateKeepsPositive(h, start);
    var r := AssetColumns(t, scalar, weight);
    RowsFollowDates(t, r, start);
    r
  }

  /** Rows that carry the dates of a sorted history from the start date on are sorted and not earlier than the start. */
  lemma RowsFollowDates(t: seq<Quote>, r: seq<AssetRow>, start: int)
    requires DatesIncrease(t) && forall q :: q in t ==> q.date >= start
    requires |r| == |t| && forall i :: 0 <= i < |t| ==> r[i].date == t[i].date
    ensures RowsIncrease(r)
    ensures forall x :: x in r ==> x.date >= start
  {
    forall x | x in r
      ensures x.date >= start
    {
      var i :| 0 <= i < |r| && r[i] == x;
      assert t[i] in t;
    }
  }

  /** tables holds the tables of the first n assets, each from the start date on. */
  predicate TablesOf(tables: seq<seq<AssetRow>>, n: nat, histories: seq<seq<Quote>>, start: int, scalars: seq<real>, weights: seq<real>)
  {
    && |tables| == n <= |histories| && |histories| <= |scalars| && |histories| <= |weights|
    && WellFormed(histories)
    && (forall j :: 0 <= j < n ==> Reaches(histories[j], start))
    && forall j :: 0 <= j < n ==> tables[j] == AssetTable(histories[j], start, scalars[j], weights[j])
  }

  /** The table of asset n extends the tables of the assets before it. */
  lemma TablesStep(tables: seq<seq<AssetRow>>, n: nat, histories: seq<seq<Quote>>, start: int, scalars: seq<real>, weights: seq<real>)
    requires TablesOf(tables, n, histories, start, scalars, weights)
    requires n < |histories| && Reaches(histories[n], start)
    ensures TablesOf(tables + [AssetTable(histories[n], start, scalars[n], weights[n])], n + 1, histories, start, scalars, weights)
  {
    var ts := tables + [AssetTable(histories[n], start, scalars[n], weights[n])];
    forall j | 0 <= j < n + 1
      ensures ts[j] == AssetTable(histories[j], start, scalars[j], weights[j])
    {
      if j < n {
        assert ts[j] == tables[j];
      }
    }
  }

  // ---------------------------------------------------------------------
  // Accumulating the outer merge
  // ---------------------------------------------------------------------

  /** The dates of any of the tables. */
  function UnionDates(tables: seq<seq<AssetRow>>): set<int>
  {
    if tables == [] then {} else UnionDates(tables[..|tables| - 1]) + RowDates(tables[|tables| - 1])
  }

  lemma {:induction false} RowDatesInUnion(tables: seq<seq<AssetRow>>, j: nat)
    requires j < |tables|
    ensures RowDates(tables[j]) <= UnionDates(tables)
  {
    if j < |tables| - 1 {
      var front := tables[..|tables| - 1];
      RowDatesInUnion(front, j);
      assert front[j] == tables[j];
    }
  }

  /**
   * The merged table of the first |tables| assets: sorted, one row per
   * date of any asset, and cell j of each row is asset j's row on that date.
   */
  predicate Accumulated(merged: seq<WideRow>, tables: seq<seq<AssetRow>>)
  {
    && WideIncrease(merged)
    && WideDates(merged) == UnionDates(tables)
    && (forall w :: w in merged ==> |w.cells| == |tables|)
    && (forall w, j :: w in merged && 0 <= j < |tables| ==> w.cells[j] == FindRow(tables[j], w.date))
  }

  /** Merging one more asset table into the accumulated table keeps it accumulated. */
  lemma AccumulateStep(merged: seq<WideRow>, tables: seq<seq<AssetRow>>, t: seq<AssetRow>)
    requires Accumulated(merged, tables) && RowsIncrease(t)
    ensures Accumulated(OuterMerge(merged, |tables|, t), tables + [t])
  {
    var k := |tables|;
    var out := OuterMerge(merged, k, t);
    var ts := tables + [t];
    OuterMergeCorrect(merged, k, t);
    assert ts[..k] == tables;
    forall w, j | w in out && 0 <= j < k + 1
      ensures w.cells[j] == FindRow(ts[j], w.date)
    {
      if j < k {
        var o := FindWide(merged, w.date);
        if o.None? {
          RowDatesInUnion(tables, j);
        }
      }
    }
  }

  // ---------------------------------------------------------------------
  // Totals and dropna
  // ---------------------------------------------------------------------

  /** The rows of the cells that are present, in order (what a sum with skipna adds up). */
  function Present(cells: seq<Option<AssetRow>>): (p: seq<AssetRow>)
    ensures (forall j :: 0 <= j < |cells| ==> cells[j].Some?) ==>
      |p| == |cells| && forall j :: 0 <= j < |cells| ==> cells[j] == Some(p[j])
  {
    if cells == [] then []
    else
      var last := cells[|cells| - 1];
      Present(cells[..|cells| - 1]) + if last.Some? then [last.value] else []
  }

  /** The sum of the LeveragedReturn columns: the assets' unweighted leveraged returns. */
  function SumLeveraged(assets: seq<AssetRow>): real
  {
    if assets == [] then 0.0 else SumLeveraged(assets[..|assets| - 1]) + assets[|assets| - 1].leveragedReturn
  }

  /** The sum of the WeightedLeveragedReturn columns, which the total return does not use. */
  function SumWeighted(assets: seq<AssetRow>): real
  {
    if assets == [] then 0.0 else SumWeighted(assets[..|assets| - 1]) + assets[|assets| - 1].weightedReturn
  }

  /**
   * The total return ignores the weights: when every asset moves by the
   * same leveraged return x and the weights sum to 1, the weighted returns
   * add up to x, but the total return is x once per asset.
   */
  lemma TotalReturnIsUnweighted(assets: seq<AssetRow>, weights: seq<real>, x: real)
    requires |weights| == |assets| && Sum(weights) == 1.0
    requires forall j :: 0 <= j < |assets| ==> assets[j].leveragedReturn == x
    requires forall j :: 0 <= j < |assets| ==> assets[j].weightedReturn == weights[j] * assets[j].leveragedReturn
    ensures SumLeveraged(assets) == |assets| as real * x
    ensures SumWeighted(assets) == x
    ensures |assets| > 1 && x != 0.0 ==> SumLeveraged(assets) != SumWeighted(assets)
  {
    SumOfEqualReturns(assets, x);
    WeightedSum(assets, weights, x);
    CopiesAgainstShares(SumLeveraged(assets), SumWeighted(assets), |assets| as real, Sum(weights), x);
  }

  /** n copies of x against x split into shares that sum to 1. */
  lemma CopiesAgainstShares(copies: real, shares: real, n: real, total: real, x: real)
    requires copies == n * x && shares == total * x && total == 1.0
    ensures shares == x
    ensures n > 1.0 && x != 0.0 ==> copies != shares
  {
    if n > 1.0 && x != 0.0 {
      assert copies - shares == (n - 1.0) * x;
    }
  }

  lemma {:induction false} SumOfEqualReturns(assets: seq<AssetRow>, x: real)
    requires forall j :: 0 <= j < |assets| ==> assets[j].leveragedReturn == x
    ensures SumLeveraged(assets) == |assets| as real * x
  {
    if assets != [] {
      SumOfEqualReturns(assets[..|assets| - 1], x);
    }
  }

  /** With every leveraged return x, the weighted returns add up to the sum of the weights times x. */
  lemma {:induction false} WeightedSum(assets: seq<AssetRow>, weights: seq<real>, x: real)
    requires |weights| == |assets|
    requires forall j :: 0 <= j < |assets| ==> assets[j].leveragedReturn == x
    requires forall j :: 0 <= j < |assets| ==> assets[j].weightedReturn == weights[j] * assets[j].leveragedReturn
    ensures SumWeighted(assets) == Sum(weights) * x
  {
    if assets != [] {
      var n := |assets| - 1;
      WeightedSum(assets[..n], weights[..n], x);
      assert SumWeighted(assets) == Sum(weights[..n]) * x + weights[n] * x;
      assert Sum(weights) == Sum(weights[..n]) + weights[n] by {
        assert weights[..|weights| - 1] == weights[..n];
      }
    }
  }

  /** The sum of the SimulatedLeveragedPrice columns. */
  function SumPrices(assets: seq<AssetRow>): real
  {
    if assets == [] then 0.0 else SumPrices(assets[..|assets| - 1]) + assets[|assets| - 1].simulatedPrice
  }

  function AddTotals(merged: seq<WideRow>): (rows: seq<TotalRow>)
    ensures |rows| == |merged|
    ensures forall i :: 0 <= i < |merged| ==>
      rows[i] == TotalRow(merged[i].date, merged[i].cells,
                          SumLeveraged(Present(merged[i].cells)), SumPrices(Present(merged[i].cells)))
  {
    seq(|merged|, i requires 0 <= i < |merged| =>
      TotalRow(merged[i].date, merged[i].cells,
               SumLeveraged(Present(merged[i].cells)), SumPrices(Present(merged[i].cells))))
  }

  /** No cell is missing, and no asset's daily return is missing (as it is on its first row). */
  predicate NoMissing(r: TotalRow)
  {
    forall j :: 0 <= j < |r.cells| ==> r.cells[j].Some? && r.cells[j].value.dailyReturn.Some?
  }

  function Kept(r: TotalRow): PortfolioRow
  {
    PortfolioRow(r.date, Present(r.cells), r.totalReturn, r.totalPrice)
  }

  predicate TotalsIncrease(rows: seq<TotalRow>)
  {
    forall i, j :: 0 <= i < j < |rows| ==> rows[i].date < rows[j].date
  }

  predicate PortfolioIncrease(rows: seq<PortfolioRow>)
  {
    forall i, j :: 0 <= i < j < |rows| ==> rows[i].date < rows[j].date
  }

  /** dropna: the rows without a missing value, in their order. */
  function DropNa(rows: seq<TotalRow>): (out: seq<PortfolioRow>)
    ensures |out| <= |rows|
  {
    if rows == [] then []
    else if NoMissing(rows[0]) then [Kept(rows[0])] + DropNa(rows[1..])
    else DropNa(rows[1..])
  }

  /** Every row dropna keeps is a row without a missing value. */
  lemma {:induction false} DropNaSound(rows: seq<TotalRow>, p: PortfolioRow)
    requires p in DropNa(rows)
    ensures exists i :: 0 <= i < |rows| && NoMissing(rows[i]) && p == Kept(rows[i])
  {
    if NoMissing(rows[0]) && p == Kept(rows[0]) {
      assert NoMissing(rows[0]);
    } else {
      DropNaSound(rows[1..], p);
      var i :| 0 <= i < |rows[1..]| && NoMissing(rows[1..][i]) && p == Kept(rows[1..][i]);
      assert rows[i + 1] == rows[1..][i];
    }
  }

  /** Every row without a missing value is kept. */
  lemma {:induction false} DropNaComplete(rows: seq<TotalRow>, i: nat)
    requires i < |rows| && NoMissing(rows[i])
    ensures Kept(rows[i]) in DropNa(rows)
  {
    if i > 0 {
      DropNaComplete(rows[1..], i - 1);
      assert rows[1..][i - 1] == rows[i];
    }
  }

  /** dropna keeps the order of the rows. */
  lemma {:induction false} DropNaIncrease(rows: seq<TotalRow>)
    requires TotalsIncrease(rows)
    ensures PortfolioIncrease(DropNa(rows))
  {
    if rows != [] {
      var rest := DropNa(rows[1..]);
      assert TotalsIncrease(rows[1..]);
      DropNaIncrease(rows[1..]);
      if NoMissing(rows[0]) {
        var out := [Kept(rows[0])] + rest;
        forall i, j | 0 <= i < j < |out|
          ensures out[i].date < out[j].date
        {
          if i == 0 {
            DropNaSound(rows[1..], out[j]);
            var m :| 0 <= m < |rows[1..]| && NoMissing(rows[1..][m]) && out[j] == Kept(rows[1..][m]);
            assert rows[1..][m] == rows[m + 1];
          } else {
            assert out[i] == rest[i - 1] && out[j] == rest[j - 1];
          }
        }
      }
    }
  }

  // ---------------------------------------------------------------------
  // What the compositor returns
  // ---------------------------------------------------------------------

  /** Every table has a row on the date, and none of them is that table's first row. */
  predicate OnEveryAsset(tables: seq<seq<AssetRow>>, d: int)
  {
    forall j :: 0 <= j < |tables| ==> FindRow(tables[j], d).Some? && FindRow(tables[j], d).value.dailyReturn.Some?
  }

  function PortfolioDates(rows: seq<PortfolioRow>): set<int>
  {
    set r | r in rows :: r.date
  }

  /**
   * The returned table for the given asset tables: sorted by date; each
   * row holds every asset's own row on that date and the two totals; and
   * a date is present exactly when every asset has a row on it that is not
   * its first.
   */
  ghost predicate Composed(rows: seq<PortfolioRow>, tables: seq<seq<AssetRow>>)
  {
    && PortfolioIncrease(rows)
    && (forall r :: r in rows ==> HoldsAssets(r, tables))
    && (forall d :: d in PortfolioDates(rows) <==> OnEveryAsset(tables, d))
  }

  /** The row holds every asset's own row on its date, and the two totals over them. */
  predicate HoldsAssets(r: PortfolioRow, tables: seq<seq<AssetRow>>)
  {
    && |r.assets| == |tables|
    && (forall j :: 0 <= j < |tables| ==> FindRow(tables[j], r.date) == Some(r.assets[j]))
    && r.totalReturn == SumLeveraged(r.assets)
    && r.totalPrice == SumPrices(r.assets)
  }

  /** Totals and dropna applied to an accumulated merge give the composed table. */
  lemma ComposeFinish(merged: seq<WideRow>, tables: seq<seq<AssetRow>>)
    requires Accumulated(merged, tables) && |tables| > 0
    ensures Composed(DropNa(AddTotals(merged)), tables)
  {
    DropNaIncrease(AddTotals(merged));
    KeptRowsHoldAssets(merged, tables);
    EveryCommonDateKept(merged, tables);
  }

  lemma KeptRowsHoldAssets(merged: seq<WideRow>, tables: seq<seq<AssetRow>>)
    requires Accumulated(merged, tables)
    ensures forall p :: p in DropNa(AddTotals(merged)) ==> HoldsAssets(p, tables) && OnEveryAsset(tables, p.date)
  {
    var totals := AddTotals(merged);
    forall p | p in DropNa(totals)
      ensures HoldsAssets(p, tables) && OnEveryAsset(tables, p.date)
    {
      DropNaSound(totals, p);
      var i :| 0 <= i < |totals| && NoMissing(totals[i]) && p == Kept(totals[i]);
      KeptRow(merged, tables, i);
    }
  }

  lemma EveryCommonDateKept(merged: seq<WideRow>, tables: seq<seq<AssetRow>>)
    requires Accumulated(merged, tables) && |tables| > 0
    ensures forall d :: OnEveryAsset(tables, d) ==> d in PortfolioDates(DropNa(AddTotals(merged)))
  {
    var totals := AddTotals(merged);
    forall d | OnEveryAsset(tables, d)
      ensures d in PortfolioDates(DropNa(totals))
    {
      var i := MergedRowOn(merged, tables, d);
      DropNaComplete(totals, i);
      assert Kept(totals[i]).date == d;
    }
  }

  /** A merged row without missing values holds, as a kept row, every asset's own row on its date. */
  lemma KeptRow(merged: seq<WideRow>, tables: seq<seq<AssetRow>>, i: nat)
    requires Accumulated(merged, tables)
    requires i < |merged| && NoMissing(AddTotals(merged)[i])
    ensures HoldsAssets(Kept(AddTotals(merged)[i]), tables)
    ensures OnEveryAsset(tables, Kept(AddTotals(merged)[i]).date)
  {
    var w := merged[i];
    assert w in merged;
    assert AddTotals(merged)[i].cells == w.cells;
  }

  /** A date on which every asset has a row is the date of a merged row without missing values. */
  lemma MergedRowOn(merged: seq<WideRow>, tables: seq<seq<AssetRow>>, d: int) returns (i: nat)
    requires Accumulated(merged, tables) && |tables| > 0
    requires OnEveryAsset(tables, d)
    ensures i < |merged| && merged[i].date == d && NoMissing(AddTotals(merged)[i])
  {
    RowDatesInUnion(tables, 0);
    assert d in RowDates(tables[0]);
    var w :| w in merged && w.date == d;
    i :| 0 <= i < |merged| && merged[i] == w;
    forall j | 0 <= j < |w.cells|
      ensures w.cells[j].Some? && w.cells[j].value.dailyReturn.Some?
    {
      assert w.cells[j] == FindRow(tables[j], d);
    }
    assert AddTotals(merged)[i].cells == w.cells;
  }

  /** An asset whose history starts on the start date has its first row, with no daily return, on that date. */
  lemma FirstRowOnStart(h: seq<Quote>, start: int, scalar: real, weight: real)
    requires DatesIncrease(h) && Positive(Closes(h)) && h != [] && EarliestDate(h) == start
    ensures Reaches(h, start)
    ensures FindRow(AssetTable(h, start, scalar, weight), start).Some?
    ensures FindRow(AssetTable(h, start, scalar, weight), start).value.dailyReturn.None?
  {
    var i :| 0 <= i < |h| && h[i].date == start;
    assert start <= h[0].date;
    assert i == 0;
    assert Truncate(h, start)[0] == h[0];
    var r := AssetTable(h, start, scalar, weight);
    assert r[0].date == start;
    FindRowAt(r, 0);
  }

  /**
   * Every date on which all assets have a row that is not their first one
   * comes after the start date: the asset whose history starts latest has
   * its first row on the start date, and no asset has a row before it.
   */
  lemma StartDateDropped(tables: seq<seq<AssetRow>>, histories: seq<seq<Quote>>, scalars: seq<real>, weights: seq<real>, d: int)
    requires Ready(histories) && TablesOf(tables, |histories|, histories, LatestFirstDate(histories), scalars, weights)
    requires OnEveryAsset(tables, d)
    ensures d > LatestFirstDate(histories)
  {
    var start := LatestFirstDate(histories);
    var ts := tables;
    var k :| 0 <= k < |histories| && EarliestDate(histories[k]) == start;
    FirstRowOnStart(histories[k], start, scalars[k], weights[k]);
    AfterFirstRow(ts[k], start, d);
  }

  lemma AfterFirstRow(t: seq<AssetRow>, start: int, d: int)
    requires forall x :: x in t ==> x.date >= start
    requires FindRow(t, start).Some? && FindRow(t, start).value.dailyReturn.None?
    requires FindRow(t, d).Some? && FindRow(t, d).value.dailyReturn.Some?
    ensures d > start
  {
    assert FindRow(t, d).value in t;
  }

  /** The merged tables of every asset, with totals and without missing values, are the composed table. */
  lemma ComposeResult(tables: seq<seq<AssetRow>>, histories: seq<seq<Quote>>, scalars: seq<real>, weights: seq<real>,
                      merged: seq<WideRow>)
    requires Ready(histories) && TablesOf(tables, |histories|, histories, LatestFirstDate(histories), scalars, weights)
    requires Accumulated(merged, tables)
    ensures Composed(DropNa(AddTotals(merged)), tables)
    ensures forall r :: r in DropNa(AddTotals(merged)) ==> r.date > LatestFirstDate(histories)
  {
    var rows := DropNa(AddTotals(merged));
    ComposeFinish(merged, tables);
    forall r | r in rows
      ensures r.date > LatestFirstDate(histories)
    {
      assert r.date in PortfolioDates(rows);
      StartDateDropped(tables, histories, scalars, weights, r.date);
    }
  }

  // ---------------------------------------------------------------------
  // The compositor
  // ---------------------------------------------------------------------

  /**
   * Validates the inputs, finds the common start date, merges the asset
   * tables one by one (the first table becomes the merged table) and
   * returns the merged rows with their totals, without missing values.
   */
  method ProcessLeveragedData(tickers: seq<string>, scalars: seq<real>, weights: seq<real>, histories: seq<seq<Quote>>)
    returns (res: Result<seq<PortfolioRow>, Error>, ghost tables: seq<seq<AssetRow>>)
    requires |histories| == |tickers|
    requires WellFormed(histories)
    ensures res == Failure(LengthMismatch) <==> !LengthsMatch(tickers, scalars, weights)
    ensures res == Failure(WeightsDoNotSumToOne) <==>
      LengthsMatch(tickers, scalars, weights) && !WeightsSumToOne(weights)
    ensures res == Failure(NoRowsFromStart) <==>
      LengthsMatch(tickers, scalars, weights) && WeightsSumToOne(weights) && !Ready(histories)
    ensures res.Success? ==> LengthsMatch(tickers, scalars, weights) && Ready(histories)
    ensures res.Success? ==> TablesOf(tables, |histories|, histories, LatestFirstDate(histories), scalars, weights)
    ensures res.Success? ==> Composed(res.value, tables)
    ensures res.Success? ==> forall r :: r in res.value ==> r.date > LatestFirstDate(histories)
  {
    tables := [];
    if |tickers| != |scalars| || |tickers| != |weights| {
      return Failure(LengthMismatch), tables;
    }
    if !WeightsSumToOne(weights) {
      return Failure(WeightsDoNotSumToOne), tables;
    }
    NoWeightsRejected(weights);
    var start := CommonStart(histories);
    if start.None? {
      return Failure(NoRowsFromStart), tables;
    }
    var merged: seq<WideRow> := [];
    for k := 0 to |tickers|
      invariant TablesOf(tables, k, histories, start.value, scalars, weights)
      invariant Accumulated(merged, tables)
    {
      TruncateNonEmpty(histories[k], start.value);
      if Truncate(histories[k], start.value) == [] {
        return Failure(NoRowsFromStart), tables;
      }
      var table := AssetTable(histories[k], start.value, scalars[k], weights[k]);
      AccumulateStep(merged, tables, table);
      TablesStep(tables, k, histories, start.value, scalars, weights);
      merged := OuterMerge(merged, k, table);
      tables := tables + [table];
    }
    ComposeResult(tables, histories, scalars, weights, merged);
    res := Success(DropNa(AddTotals(merged)));
  }
}
