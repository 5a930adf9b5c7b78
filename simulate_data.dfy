/**
 * The single-asset leverage simulator: adds a daily-return, a leveraged-
 * return and a simulated-leveraged-price column to one downloaded history,
 * filling the price column row by row from the previous row.
 */
module SimulateData {
  import opened Wrappers
  import opened Series

  /** An input row with the three columns the simulator adds. */
  datatype SimRow = SimRow(
    date: int,
    adjClose: real,
    dailyReturn: Option<real>,
    leveragedReturn: real,
    simulatedPrice: real)

  /** Writing row 0 of a column of an empty table raises an IndexError. */
  datatype SimError = EmptyHistory

  function SimulatedPrices(rows: seq<SimRow>): (s: seq<real>)
    ensures |s| == |rows|
    ensures forall i :: 0 <= i < |rows| ==> s[i] == rows[i].simulatedPrice
  {
    seq(|rows|, i requires 0 <= i < |rows| => rows[i].simulatedPrice)
  }

  /**
   * The leveraged price column starts as the first close on every row and
   * is then filled in place: row i is row i - 1 times (1 + leveraged return).
   */
  method ProcessLeveragedData(quotes: seq<Quote>, scalar: real) returns (res: Result<seq<SimRow>, SimError>)
    requires Positive(Closes(quotes))
    ensures res.Failure? <==> |quotes| == 0
    ensures res.Success? ==> |res.value| == |quotes|
    ensures res.Success? ==> forall i :: 0 <= i < |quotes| ==>
      && res.value[i].date == quotes[i].date
      && res.value[i].adjClose == quotes[i].adjClose
      && res.value[i].dailyReturn == PctChange(Closes(quotes))[i]
      && res.value[i].leveragedReturn == LeveragedReturns(Closes(quotes), scalar)[i]
    ensures res.Success? ==> res.value[0].leveragedReturn == 0.0
    ensures res.Success? ==> res.value[0].simulatedPrice == quotes[0].adjClose
    ensures res.Success? ==> SimRowsCompound(res.value)
    ensures res.Success? ==>
      SimulatedPrices(res.value) == CumProdPrices(quotes[0].adjClose, LeveragedReturns(Closes(quotes), scalar))
  {
    var n := |quotes|;
    if n == 0 {
      return Failure(EmptyHistory);
    }
    var closes := Closes(quotes);
    var daily := PctChange(closes);
    var lev := LeveragedReturns(closes, scalar);
    var first := closes[0];
    var price := new real[n](_ => first);
    FillLeveragedPrices(price, lev);
    var ps := price[..];
    RecurrenceIsCumProd(first, lev, ps);
    var rows := seq(n, i requires 0 <= i < n => SimRow(quotes[i].date, closes[i], daily[i], lev[i], ps[i]));
    assert SimulatedPrices(rows) == ps;
    assert LeveragedColumn(rows) == lev;
    return Success(rows);
  }

  /**
   * The loop over rows 1..n-1 of a price column that holds the first close
   * on every row: each row becomes the previous row times (1 + its return).
   */
  method FillLeveragedPrices(price: array<real>, lev: seq<real>)
    requires price.Length == |lev| > 0
    requires forall j :: 0 <= j < price.Length ==> price[j] == price[0]
    modifies price
    ensures price[0] == old(price[0])
    ensures Compounds(price[..], lev)
  {
    var n, first := price.Length, price[0];
    for i := 1 to n
      invariant price[0] == first
      invariant forall j {:trigger lev[j]} :: 0 < j < i ==> price[j] == Grow(price[j - 1], lev[j])
      invariant forall j :: i <= j < n ==> price[j] == first
    {
      price[i] := Grow(price[i - 1], lev[i]);
    }
  }

  function LeveragedColumn(rows: seq<SimRow>): (s: seq<real>)
    ensures |s| == |rows|
    ensures forall i :: 0 <= i < |rows| ==> s[i] == rows[i].leveragedReturn
  {
    seq(|rows|, i requires 0 <= i < |rows| => rows[i].leveragedReturn)
  }

  /** Each row's simulated price is the previous row's times (1 + its leveraged return). */
  predicate SimRowsCompound(rows: seq<SimRow>)
  {
    Compounds(SimulatedPrices(rows), LeveragedColumn(rows))
  }

  /** With leverage 1 the simulated price column equals the adjusted-close column. */
  lemma UnitLeverageReproducesCloses(quotes: seq<Quote>, rows: seq<SimRow>)
    requires Positive(Closes(quotes)) && |quotes| > 0
    requires SimulatedPrices(rows) == CumProdPrices(quotes[0].adjClose, LeveragedReturns(Closes(quotes), 1.0))
    ensures forall i :: 0 <= i < |rows| ==> rows[i].simulatedPrice == quotes[i].adjClose
  {
    UnitLeverageReproducesPrices(Closes(quotes));
    assert SimulatedPrices(rows) == Closes(quotes);
  }
}
