/**
 * Forward returns of the portfolio's total price: for each anchor row (or
 * each row that is not an anchor) and each fixed holding period, the
 * relative move from that row's price to the price the given number of
 * rows later, or no value when the table ends first.
 */
module ForwardReturns {
  import opened Wrappers
  import Portfolio
  import Peaks

  /** The holding periods in rows: 3, 6, 12, 24 and 48 months. */
  const HoldingPeriods: seq<nat> := [91, 182, 365, 730, 1460]

  /** One output row: the row's index and date and one return per holding period. */
  datatype ReturnRow = ReturnRow(index: int, date: int, periodReturns: seq<Option<real>>)

  /** An anchor that is not a row of the table (pandas raises a KeyError on it). */
  datatype ReturnError = UnknownIndex(index: int)

  /** The total-price column of the portfolio table. */
  function Prices(data: seq<Portfolio.PortfolioRow>): (p: seq<real>)
    ensures |p| == |data|
    ensures forall i :: 0 <= i < |data| ==> p[i] == data[i].totalPrice
  {
    seq(|data|, i requires 0 <= i < |data| => data[i].totalPrice)
  }

  /** Every price can be an entry price: the return divides by it. */
  predicate NonZero(p: seq<real>)
  {
    forall i :: 0 <= i < |p| ==> p[i] != 0.0
  }

  /**
   * The return from row i over h rows: present exactly when row i + h
   * exists, and then the entry price grown by it is the exit price.
   */
  function ForwardReturn(p: seq<real>, i: int, h: nat): (r: Option<real>)
    requires 0 <= i < |p| && p[i] != 0.0
    ensures r.Some? <==> i + h < |p|
    ensures r.Some? ==> p[i] * (1.0 + r.value) == p[i + h]
  {
    if i + h < |p| then Some((p[i + h] - p[i]) / p[i]) else None
  }

  /** The returns of row i over every holding period, in the order of the periods. */
  function Returns(p: seq<real>, i: int): (r: seq<Option<real>>)
    requires 0 <= i < |p| && p[i] != 0.0
    ensures |r| == |HoldingPeriods|
    ensures forall k :: 0 <= k < |r| ==> r[k] == ForwardReturn(p, i, HoldingPeriods[k])
  {
    seq(|HoldingPeriods|, k requires 0 <= k < |HoldingPeriods| => ForwardReturn(p, i, HoldingPeriods[k]))
  }

  /** The output row for table row i. */
  function RowAt(data: seq<Portfolio.PortfolioRow>, i: int): ReturnRow
    requires 0 <= i < |data| && NonZero(Prices(data))
  {
    ReturnRow(i, data[i].date, Returns(Prices(data), i))
  }

  /** The holding periods grow, so once one runs past the end of the table every longer one does too. */
  lemma MissingReturnsTrail(p: seq<real>, i: int)
    requires 0 <= i < |p| && p[i] != 0.0
    ensures forall k, l :: 0 <= k < l < |HoldingPeriods| && Returns(p, i)[k].None? ==> Returns(p, i)[l].None?
  {
  }

  /** Within the last 91 rows no holding period fits, and 1460 or more rows before the end every one does. */
  lemma ReturnsNearTheEnd(p: seq<real>, i: int)
    requires 0 <= i < |p| && p[i] != 0.0
    ensures i + 91 >= |p| ==> forall k :: 0 <= k < |HoldingPeriods| ==> Returns(p, i)[k].None?
    ensures i + 1460 < |p| ==> forall k :: 0 <= k < |HoldingPeriods| ==> Returns(p, i)[k].Some?
  {
  }

  /** The inner loop over the holding periods for one row. */
  method ReturnsAt(data: seq<Portfolio.PortfolioRow>, i: int) returns (row: ReturnRow)
    requires 0 <= i < |data| && NonZero(Prices(data))
    ensures row == RowAt(data, i)
  {
    var p := Prices(data);
    var gains: seq<Option<real>> := [];
    for k := 0 to |HoldingPeriods|
      invariant |gains| == k
      invariant forall j :: 0 <= j < k ==> gains[j] == ForwardReturn(p, i, HoldingPeriods[j])
    {
      var h := HoldingPeriods[k];
      if i + h < |data| {
        var entry := p[i];
        var exit := p[i + h];
        gains := gains + [Some((exit - entry) / entry)];
      } else {
        gains := gains + [None];
      }
    }
    row := ReturnRow(i, data[i].date, gains);
  }

  /**
   * One row per anchor, in the anchors' order; an anchor that is not a
   * row of the table fails the whole call, naming the first such anchor.
   */
  method AthReturns(data: seq<Portfolio.PortfolioRow>, anchors: seq<int>) returns (res: Result<seq<ReturnRow>, ReturnError>)
    requires NonZero(Prices(data))
    ensures res.Failure? <==> exists p :: 0 <= p < |anchors| && !(0 <= anchors[p] < |data|)
    ensures res.Failure? ==> exists p :: (0 <= p < |anchors| && res.error == UnknownIndex(anchors[p]) &&
      !(0 <= anchors[p] < |data|) && forall q :: 0 <= q < p ==> 0 <= anchors[q] < |data|)
    ensures res.Success? ==> (|res.value| == |anchors| &&
      forall p :: 0 <= p < |anchors| ==> res.value[p] == RowAt(data, anchors[p]))
  {
    var results: seq<ReturnRow> := [];
    for p := 0 to |anchors|
      invariant forall q :: 0 <= q < p ==> 0 <= anchors[q] < |data|
      invariant |results| == p
      invariant forall q :: 0 <= q < p ==> results[q] == RowAt(data, anchors[q])
    {
      var idx := anchors[p];
      if !(0 <= idx < |data|) {
        return Failure(UnknownIndex(idx));
      }
      var row := ReturnsAt(data, idx);
      results := results + [row];
    }
    res := Success(results);
  }

  /** The rows below n that are not anchors, in ascending order. */
  function Complement(n: nat, anchors: seq<int>): (c: seq<int>)
    ensures forall k :: 0 <= k < |c| ==> 0 <= c[k] < n
  {
    if n == 0 then []
    else
      var rest := Complement(n - 1, anchors);
      if n - 1 in anchors then rest else rest + [n - 1]
  }

  /** The complement is ascending and holds exactly the rows below n that are not anchors. */
  lemma {:induction false} ComplementFacts(n: nat, anchors: seq<int>)
    ensures forall k, l :: 0 <= k < l < |Complement(n, anchors)| ==> Complement(n, anchors)[k] < Complement(n, anchors)[l]
    ensures forall i :: i in Complement(n, anchors) <==> 0 <= i < n && i !in anchors
  {
    if n > 0 {
      ComplementFacts(n - 1, anchors);
    }
  }

  /** One row per table row that is not an anchor, in ascending order of row. */
  method NonAthReturns(data: seq<Portfolio.PortfolioRow>, anchors: seq<int>) returns (rows: seq<ReturnRow>)
    requires NonZero(Prices(data))
    ensures |rows| == |Complement(|data|, anchors)|
    ensures forall k :: 0 <= k < |rows| ==> rows[k] == RowAt(data, Complement(|data|, anchors)[k])
  {
    rows := [];
    for idx := 0 to |data|
      invariant |rows| == |Complement(idx, anchors)|
      invariant forall k :: 0 <= k < |rows| ==> 0 <= Complement(idx, anchors)[k] < |data|
      invariant forall k :: 0 <= k < |rows| ==> rows[k] == RowAt(data, Complement(idx, anchors)[k])
    {
      if idx !in anchors {
        var row := ReturnsAt(data, idx);
        rows := rows + [row];
      }
    }
  }

  /** The number of entries of a below n. */
  function Below(a: seq<int>, n: int): nat
  {
    if a == [] then 0 else Below(a[..|a| - 1], n) + (if a[|a| - 1] < n then 1 else 0)
  }

  predicate Distinct(a: seq<int>)
  {
    forall p, q :: 0 <= p < q < |a| ==> a[p] != a[q]
  }

  /** Raising the bound by one counts n itself once when it is an entry. */
  lemma {:induction false} BelowStep(a: seq<int>, n: int)
    requires Distinct(a)
    ensures Below(a, n + 1) == Below(a, n) + (if n in a then 1 else 0)
  {
    if a != [] {
      var init := a[..|a| - 1];
      BelowStep(init, n);
      assert a == init + [a[|a| - 1]];
      assert n in a <==> n in init || n == a[|a| - 1];
      if n in init {
        var p :| 0 <= p < |init| && init[p] == n;
        assert a[p] == n;
      }
    }
  }

  /** A bound above every entry counts them all. */
  lemma {:induction false} BelowAll(a: seq<int>, n: int)
    requires forall p :: 0 <= p < |a| ==> a[p] < n
    ensures Below(a, n) == |a|
  {
    if a != [] {
      BelowAll(a[..|a| - 1], n);
    }
  }

  /** The number of rows below n that are anchors. */
  function AnchorsBelow(n: nat, anchors: seq<int>): nat
  {
    if n == 0 then 0 else AnchorsBelow(n - 1, anchors) + (if n - 1 in anchors then 1 else 0)
  }

  lemma {:induction false} ComplementCount(n: nat, anchors: seq<int>)
    ensures |Complement(n, anchors)| + AnchorsBelow(n, anchors) == n
  {
    if n > 0 {
      ComplementCount(n - 1, anchors);
      ComplementGrows(n - 1, anchors);
    }
  }

  /** For distinct anchors, counting rows that are anchors and counting anchors below a row agree. */
  lemma {:induction false} AnchorsBelowCounts(n: nat, anchors: seq<int>)
    requires Distinct(anchors)
    ensures AnchorsBelow(n, anchors) + Below(anchors, 0) == Below(anchors, n)
  {
    if n > 0 {
      AnchorsBelowCounts(n - 1, anchors);
      BelowStep(anchors, n - 1);
    }
  }

  lemma ComplementGrows(n: nat, anchors: seq<int>)
    ensures |Complement(n + 1, anchors)| == |Complement(n, anchors)| + (if n in anchors then 0 else 1)
  {
  }

  /**
   * Anchors that are distinct rows of the table and their complement
   * partition the rows: every row is in exactly one of them, and together
   * they hold one entry per row.
   */
  lemma Partition(n: nat, anchors: seq<int>)
    requires Distinct(anchors)
    requires forall p :: 0 <= p < |anchors| ==> 0 <= anchors[p] < n
    ensures forall i :: 0 <= i < n ==> (i in anchors <==> i !in Complement(n, anchors))
    ensures forall i :: i in anchors || i in Complement(n, anchors) ==> 0 <= i < n
    ensures |anchors| + |Complement(n, anchors)| == n
  {
    ComplementFacts(n, anchors);
    ComplementCount(n, anchors);
    AnchorsBelowCounts(n, anchors);
    BelowAll(anchors, n);
    NoneBelowZero(anchors);
  }

  /**
   * The all-time-high indices are ascending rows of the table, so they and
   * their complement split the rows, and the anchor calculator never fails on them.
   */
  lemma HighsSplitTheRows(n: nat, anchors: seq<int>)
    requires Peaks.StrictlyIncreasing(anchors) && Peaks.InRange(anchors, n)
    ensures |anchors| + |Complement(n, anchors)| == n
    ensures forall i :: 0 <= i < n ==> (i in anchors <==> i !in Complement(n, anchors))
    ensures forall p :: 0 <= p < |anchors| ==> 0 <= anchors[p] < n
  {
    assert Distinct(anchors);
    Partition(n, anchors);
  }

  lemma {:induction false} NoneBelowZero(a: seq<int>)
    requires forall p :: 0 <= p < |a| ==> a[p] >= 0
    ensures Below(a, 0) == 0
  {
    if a != [] {
      NoneBelowZero(a[..|a| - 1]);
    }
  }

  /** Some output row is about table row i. */
  predicate Reports(rows: seq<ReturnRow>, i: int)
  {
    exists p :: 0 <= p < |rows| && rows[p].index == i
  }

  /** Rows listing the given indices in order report exactly those indices. */
  lemma ReportsExactly(rows: seq<ReturnRow>, idxs: seq<int>)
    requires |rows| == |idxs| && forall p :: 0 <= p < |rows| ==> rows[p].index == idxs[p]
    ensures forall i :: Reports(rows, i) <==> i in idxs
  {
    forall i | i in idxs
      ensures Reports(rows, i)
    {
      var p :| 0 <= p < |idxs| && idxs[p] == i;
      assert rows[p].index == i;
    }
  }

  /**
   * Every row of the table gets exactly one output row from the two
   * calculators together: the anchor rows from the first, the others from
   * the second.
   */
  lemma EveryRowReportedOnce(data: seq<Portfolio.PortfolioRow>, anchors: seq<int>, ath: seq<ReturnRow>, others: seq<ReturnRow>)
    requires NonZero(Prices(data)) && Distinct(anchors)
    requires forall p :: 0 <= p < |anchors| ==> 0 <= anchors[p] < |data|
    requires |ath| == |anchors| && forall p :: 0 <= p < |anchors| ==> ath[p] == RowAt(data, anchors[p])
    requires |others| == |Complement(|data|, anchors)|
    requires forall k :: 0 <= k < |others| ==> others[k] == RowAt(data, Complement(|data|, anchors)[k])
    ensures |ath| + |others| == |data|
    ensures forall i :: 0 <= i < |data| ==> Reports(ath, i) != Reports(others, i)
  {
    var c := Complement(|data|, anchors);
    Partition(|data|, anchors);
    ComplementFacts(|data|, anchors);
    ReportsExactly(ath, anchors);
    ReportsExactly(others, c);
  }
}
