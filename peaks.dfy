/**
 * All-time-high detection on one column of the portfolio table: the rows
 * whose value beats every earlier value (and the starting sentinel
 * -9999), optionally widened by a window of rows on each side, clipped to
 * the table and returned in ascending order without duplicates.
 */
module Peaks {

  /** The running maximum starts from this sentinel, so no value at or below it is ever a high. */
  const Sentinel: real := -9999.0

  /** Row i sets a new all-time high: it is above the sentinel and strictly above every earlier value. */
  predicate IsAth(values: seq<real>, i: int)
    requires 0 <= i < |values|
  {
    values[i] > Sentinel && forall j :: 0 <= j < i ==> values[j] < values[i]
  }

  /** Row n lies within the window of some all-time high. */
  predicate NearAth(values: seq<real>, window: int, n: int)
  {
    exists i :: 0 <= i < |values| && IsAth(values, i) && i - window <= n <= i + window
  }

  /** Row n lies within the window of one of the given indices. */
  predicate Covers(idxs: seq<int>, window: int, n: int)
  {
    exists p :: 0 <= p < |idxs| && idxs[p] - window <= n <= idxs[p] + window
  }

  /** Every entry is a row of a table of len rows. */
  predicate InRange(s: seq<int>, len: int)
  {
    forall p :: 0 <= p < |s| ==> 0 <= s[p] < len
  }

  predicate StrictlyIncreasing(s: seq<int>)
  {
    forall p, q :: 0 <= p < q < |s| ==> s[p] < s[q]
  }

  /**
   * The scan for new highs, then (for a positive window) the set of rows
   * within the window of a high and inside the table, listed in
   * ascending order.
   */
  method FindAthIndices(values: seq<real>, window: int) returns (r: seq<int>)
    ensures StrictlyIncreasing(r) && InRange(r, |values|)
    ensures window <= 0 ==> forall n :: 0 <= n < |values| ==> (n in r <==> IsAth(values, n))
    ensures window <= 0 ==> forall p, q :: 0 <= p < q < |r| ==> values[r[p]] < values[r[q]]
    ensures window > 0 ==> forall n :: n in r <==> 0 <= n < |values| && NearAth(values, window, n)
    ensures forall i :: 0 <= i < |values| && IsAth(values, i) ==> i in r
  {
    var athIndices := Highs(values);
    r := athIndices;
    if window > 0 {
      var expanded := Dilate(athIndices, window, |values|);
      r := Ascending(expanded, |values|);
      forall n | 0 <= n < |values|
        ensures Covers(athIndices, window, n) <==> NearAth(values, window, n)
      {
        if Covers(athIndices, window, n) {
          var p :| 0 <= p < |athIndices| && athIndices[p] - window <= n <= athIndices[p] + window;
          assert athIndices[p] in athIndices;
        }
        if NearAth(values, window, n) {
          var i :| 0 <= i < |values| && IsAth(values, i) && i - window <= n <= i + window;
          var p :| 0 <= p < |athIndices| && athIndices[p] == i;
        }
      }
      forall i | 0 <= i < |values| && IsAth(values, i)
        ensures i in r
      {
        assert i - window <= i <= i + window;
      }
    }
  }

  /** The scan with a running maximum that starts at the sentinel. */
  method Highs(values: seq<real>) returns (athIndices: seq<int>)
    ensures StrictlyIncreasing(athIndices) && InRange(athIndices, |values|)
    ensures forall n :: n in athIndices <==> 0 <= n < |values| && IsAth(values, n)
    ensures forall p, q :: 0 <= p < q < |athIndices| ==> values[athIndices[p]] < values[athIndices[q]]
  {
    athIndices := [];
    var currentAth := Sentinel;
    for idx := 0 to |values|
      invariant StrictlyIncreasing(athIndices) && InRange(athIndices, idx)
      invariant forall n :: n in athIndices <==> 0 <= n < idx && IsAth(values, n)
      invariant currentAth >= Sentinel
      invariant forall j :: 0 <= j < idx ==> values[j] <= currentAth
      invariant athIndices == [] ==> currentAth == Sentinel
      invariant athIndices != [] ==> currentAth == values[athIndices[|athIndices| - 1]]
    {
      var value := values[idx];
      if value > currentAth {
        assert IsAth(values, idx);
        currentAth := value;
        athIndices := athIndices + [idx];
      } else {
        assert !IsAth(values, idx) by {
          if athIndices != [] {
            var last := athIndices[|athIndices| - 1];
            assert last in athIndices;
          }
        }
      }
    }
    assert forall p :: 0 <= p < |athIndices| ==> IsAth(values, athIndices[p]) by {
      forall p | 0 <= p < |athIndices| ensures IsAth(values, athIndices[p]) {
        assert athIndices[p] in athIndices;
      }
    }
    HighsRise(values, athIndices);
  }

  /** Indices of highs listed in increasing order have increasing values. */
  lemma HighsRise(values: seq<real>, idxs: seq<int>)
    requires StrictlyIncreasing(idxs) && InRange(idxs, |values|)
    requires forall p :: 0 <= p < |idxs| ==> IsAth(values, idxs[p])
    ensures forall p, q :: 0 <= p < q < |idxs| ==> values[idxs[p]] < values[idxs[q]]
  {
  }

  /** The rows within the window of one of the indices that fall inside a table of len rows. */
  method Dilate(idxs: seq<int>, window: int, len: nat) returns (expanded: set<int>)
    requires window > 0
    ensures forall n :: n in expanded <==> 0 <= n < len && Covers(idxs, window, n)
  {
    expanded := {};
    for a := 0 to |idxs|
      invariant forall n :: n in expanded <==> 0 <= n < len && Covers(idxs[..a], window, n)
    {
      var idx := idxs[a];
      for offset := -window to window + 1
        invariant forall n :: n in expanded <==>
          0 <= n < len && (Covers(idxs[..a], window, n) || idx - window <= n < idx + offset)
      {
        var newIdx := idx + offset;
        if 0 <= newIdx < len {
          expanded := expanded + {newIdx};
        }
      }
      CoversStep(idxs, window, a);
    }
    assert idxs[..|idxs|] == idxs;
  }

  lemma CoversStep(idxs: seq<int>, window: int, a: nat)
    requires a < |idxs|
    ensures forall n :: Covers(idxs[..a + 1], window, n) <==>
      Covers(idxs[..a], window, n) || idxs[a] - window <= n <= idxs[a] + window
  {
    forall n
      ensures Covers(idxs[..a + 1], window, n) <==>
        Covers(idxs[..a], window, n) || idxs[a] - window <= n <= idxs[a] + window
    {
      if Covers(idxs[..a + 1], window, n) {
        var p :| 0 <= p < a + 1 && idxs[..a + 1][p] - window <= n <= idxs[..a + 1][p] + window;
        if p < a {
          assert idxs[..a][p] == idxs[p];
        }
      }
      if Covers(idxs[..a], window, n) {
        var p :| 0 <= p < a && idxs[..a][p] - window <= n <= idxs[..a][p] + window;
        assert idxs[..a + 1][p] == idxs[p];
      }
      if idxs[a] - window <= n <= idxs[a] + window {
        assert idxs[..a + 1][a] == idxs[a];
      }
    }
  }

  /** The members of a set of rows of a table of len rows, in ascending order. */
  method Ascending(s: set<int>, len: nat) returns (r: seq<int>)
    requires forall n :: n in s ==> 0 <= n < len
    ensures StrictlyIncreasing(r) && InRange(r, len)
    ensures forall n :: n in r <==> n in s
  {
    r := [];
    for n := 0 to len
      invariant StrictlyIncreasing(r) && InRange(r, n)
      invariant forall m :: m in r <==> m in s && m < n
    {
      if n in s {
        r := r + [n];
      }
    }
  }

  /**
   * On the column 1, 3, 2, 5, 4, 5 the highs are rows 0, 1 and 3: row 5
   * only equals the maximum so far, and a tie is not a new high.
   */
  lemma TieIsNotAHigh()
    ensures var v := [1.0, 3.0, 2.0, 5.0, 4.0, 5.0];
      forall i :: 0 <= i < |v| ==> (IsAth(v, i) <==> i == 0 || i == 1 || i == 3)
  {
    var v := [1.0, 3.0, 2.0, 5.0, 4.0, 5.0];
    assert !IsAth(v, 2) by { assert v[1] >= v[2]; }
    assert !IsAth(v, 4) by { assert v[3] >= v[4]; }
    assert !IsAth(v, 5) by { assert v[3] >= v[5]; }
  }
}
