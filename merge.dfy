/**
 * pandas' outer merge of the accumulated portfolio table with one more
 * asset table on the Date column. A wide row holds one optional cell per
 * asset merged so far (None where that asset has no row on the date);
 * both inputs are sorted by date and so is the result.
 */
module Merge {
  import opened Wrappers
  import opened Assets

  datatype WideRow = WideRow(date: int, cells: seq<Option<AssetRow>>)

  predicate WideIncrease(w: seq<WideRow>)
  {
    forall i, j :: 0 <= i < j < |w| ==> w[i].date < w[j].date
  }

  function RowDates(t: seq<AssetRow>): set<int>
  {
    set x | x in t :: x.date
  }

  function WideDates(w: seq<WideRow>): set<int>
  {
    set x | x in w :: x.date
  }

  /** The row of an asset table on a date, if the asset has one. */
  function FindRow(t: seq<AssetRow>, d: int): (o: Option<AssetRow>)
    ensures o.Some? ==> o.value in t && o.value.date == d
    ensures o.None? <==> d !in RowDates(t)
  {
    if t == [] then None
    else if t[0].date == d then Some(t[0])
    else
      var o := FindRow(t[1..], d);
      assert forall x :: x in t[1..] ==> x in t;
      assert d in RowDates(t) ==> d in RowDates(t[1..]) by {
        if d in RowDates(t) {
          var x :| x in t && x.date == d;
          assert x in t[1..];
        }
      }
      o
  }

  /** The wide row on a date, if the merged table has one. */
  function FindWide(w: seq<WideRow>, d: int): (o: Option<WideRow>)
    ensures o.Some? ==> o.value in w && o.value.date == d
    ensures o.None? <==> d !in WideDates(w)
  {
    if w == [] then None
    else if w[0].date == d then Some(w[0])
    else
      var o := FindWide(w[1..], d);
      assert forall x :: x in w[1..] ==> x in w;
      assert d in WideDates(w) ==> d in WideDates(w[1..]) by {
        if d in WideDates(w) {
          var x :| x in w && x.date == d;
          assert x in w[1..];
        }
      }
      o
  }

  /** In a table sorted by date, the row found on row i's date is row i. */
  lemma {:induction false} FindRowAt(t: seq<AssetRow>, i: nat)
    requires RowsIncrease(t) && i < |t|
    ensures FindRow(t, t[i].date) == Some(t[i])
  {
    if i > 0 {
      FindRowAt(t[1..], i - 1);
    }
  }

  lemma {:induction false} FindWideAt(w: seq<WideRow>, i: nat)
    requires WideIncrease(w) && i < |w|
    ensures FindWide(w, w[i].date) == Some(w[i])
  {
    if i > 0 {
      FindWideAt(w[1..], i - 1);
    }
  }

  function Nones(k: nat): (s: seq<Option<AssetRow>>)
    ensures |s| == k && forall j :: 0 <= j < k ==> s[j] == None
  {
    seq(k, _ => None)
  }

  /** The cells an outer merge takes from the left table on a date: its row, or k missing cells. */
  function LeftCells(o: Option<WideRow>, k: nat): seq<Option<AssetRow>>
  {
    if o.Some? then o.value.cells else Nones(k)
  }

  /**
   * The outer merge on Date of a table of wide rows with k cells and one
   * asset table: every date of either side, ascending, with the missing
   * side's cells empty.
   */
  function OuterMerge(acc: seq<WideRow>, k: nat, t: seq<AssetRow>): (out: seq<WideRow>)
    ensures acc != [] ==> out != []
    decreases |acc| + |t|
  {
    if acc == [] then
      seq(|t|, i requires 0 <= i < |t| => WideRow(t[i].date, Nones(k) + [Some(t[i])]))
    else if t == [] then
      seq(|acc|, i requires 0 <= i < |acc| => WideRow(acc[i].date, acc[i].cells + [None]))
    else if acc[0].date < t[0].date then
      [WideRow(acc[0].date, acc[0].cells + [None])] + OuterMerge(acc[1..], k, t)
    else if t[0].date < acc[0].date then
      [WideRow(t[0].date, Nones(k) + [Some(t[0])])] + OuterMerge(acc, k, t[1..])
    else
      [WideRow(t[0].date, acc[0].cells + [Some(t[0])])] + OuterMerge(acc[1..], k, t[1..])
  }

  /** What the outer merge keeps: the union of the dates, in order, with the cells of each side. */
  predicate MergedFrom(out: seq<WideRow>, acc: seq<WideRow>, k: nat, t: seq<AssetRow>)
  {
    && WideIncrease(out)
    && WideDates(out) == WideDates(acc) + RowDates(t)
    && CellsFrom(out, acc, k, t)
  }

  /** Each wide row holds the left side's cells on its date followed by the asset's row on it. */
  predicate CellsFrom(out: seq<WideRow>, acc: seq<WideRow>, k: nat, t: seq<AssetRow>)
  {
    forall w :: w in out ==> w.cells == LeftCells(FindWide(acc, w.date), k) + [FindRow(t, w.date)]
  }

  lemma {:induction false} OuterMergeCorrect(acc: seq<WideRow>, k: nat, t: seq<AssetRow>)
    requires WideIncrease(acc) && RowsIncrease(t)
    requires forall w :: w in acc ==> |w.cells| == k
    ensures MergedFrom(OuterMerge(acc, k, t), acc, k, t)
    ensures forall w :: w in OuterMerge(acc, k, t) ==> |w.cells| == k + 1
    decreases |acc| + |t|
  {
    if acc == [] {
      OnlyRight(k, t);
    } else if t == [] {
      OnlyLeft(acc, k);
    } else if acc[0].date < t[0].date {
      OuterMergeCorrect(acc[1..], k, t);
      StepLeft(acc, k, t, OuterMerge(acc[1..], k, t));
    } else if t[0].date < acc[0].date {
      OuterMergeCorrect(acc, k, t[1..]);
      StepRight(acc, k, t, OuterMerge(acc, k, t[1..]));
    } else {
      OuterMergeCorrect(acc[1..], k, t[1..]);
      StepBoth(acc, k, t, OuterMerge(acc[1..], k, t[1..]));
    }
  }

  /** With no left rows the merge is the asset table, each row after k missing cells. */
  lemma OnlyRight(k: nat, t: seq<AssetRow>)
    requires RowsIncrease(t)
    ensures MergedFrom(OuterMerge([], k, t), [], k, t)
    ensures forall w :: w in OuterMerge([], k, t) ==> |w.cells| == k + 1
  {
    var out := OuterMerge([], k, t);
    forall w | w in out
      ensures w.cells == LeftCells(FindWide([], w.date), k) + [FindRow(t, w.date)]
    {
      var i :| 0 <= i < |out| && out[i] == w;
      FindRowAt(t, i);
    }
    assert WideDates(out) == RowDates(t) by {
      forall d | d in RowDates(t) ensures d in WideDates(out) {
        var x :| x in t && x.date == d;
        var i :| 0 <= i < |t| && t[i] == x;
        assert out[i].date == d;
      }
    }
  }

  /** With no asset rows the merge is the left table, each row with one missing cell appended. */
  lemma OnlyLeft(acc: seq<WideRow>, k: nat)
    requires WideIncrease(acc) && acc != []
    requires forall w :: w in acc ==> |w.cells| == k
    ensures MergedFrom(OuterMerge(acc, k, []), acc, k, [])
    ensures forall w :: w in OuterMerge(acc, k, []) ==> |w.cells| == k + 1
  {
    var out := OuterMerge(acc, k, []);
    forall w | w in out
      ensures w.cells == LeftCells(FindWide(acc, w.date), k) + [FindRow([], w.date)]
    {
      var i :| 0 <= i < |out| && out[i] == w;
      FindWideAt(acc, i);
    }
    assert WideDates(out) == WideDates(acc) by {
      forall d | d in WideDates(acc) ensures d in WideDates(out) {
        var x :| x in acc && x.date == d;
        var i :| 0 <= i < |acc| && acc[i] == x;
        assert out[i].date == d;
      }
    }
  }

  /** The left table's first date comes first: its row, padded with a missing cell, leads. */
  lemma StepLeft(acc: seq<WideRow>, k: nat, t: seq<AssetRow>, rest: seq<WideRow>)
    requires WideIncrease(acc) && RowsIncrease(t)
    requires forall w :: w in acc ==> |w.cells| == k
    requires acc != [] && t != [] && acc[0].date < t[0].date
    requires MergedFrom(rest, acc[1..], k, t) && forall w :: w in rest ==> |w.cells| == k + 1
    ensures MergedFrom([WideRow(acc[0].date, acc[0].cells + [None])] + rest, acc, k, t)
    ensures forall w :: w in [WideRow(acc[0].date, acc[0].cells + [None])] + rest ==> |w.cells| == k + 1
  {
    var head := WideRow(acc[0].date, acc[0].cells + [None]);
    assert forall d :: d in WideDates(rest) ==> d > head.date by {
      WideDatesAfter(acc);
      RowDatesFrom(t);
    }
    assert WideIncrease([head] + rest) by {
      ConsIncrease(head, rest);
    }
    assert WideDates([head] + rest) == WideDates(acc) + RowDates(t) by {
      SplitWideDates(acc);
      ConsWideDates(head, rest);
    }
    forall w | w in rest
      ensures FindWide(acc, w.date) == FindWide(acc[1..], w.date)
    {
      assert w.date in WideDates(rest);
    }
    FindRowBefore(t, head.date);
    ConsCells(head, rest, acc, k, t, acc[1..], t);
  }

  /** The asset table's first date comes first: its row, after k missing cells, leads. */
  lemma StepRight(acc: seq<WideRow>, k: nat, t: seq<AssetRow>, rest: seq<WideRow>)
    requires WideIncrease(acc) && RowsIncrease(t)
    requires forall w :: w in acc ==> |w.cells| == k
    requires acc != [] && t != [] && t[0].date < acc[0].date
    requires MergedFrom(rest, acc, k, t[1..]) && forall w :: w in rest ==> |w.cells| == k + 1
    ensures MergedFrom([WideRow(t[0].date, Nones(k) + [Some(t[0])])] + rest, acc, k, t)
    ensures forall w :: w in [WideRow(t[0].date, Nones(k) + [Some(t[0])])] + rest ==> |w.cells| == k + 1
  {
    var head := WideRow(t[0].date, Nones(k) + [Some(t[0])]);
    assert forall d :: d in WideDates(rest) ==> d > head.date by {
      WideDatesFrom(acc);
      RowDatesAfter(t);
    }
    assert WideIncrease([head] + rest) by {
      ConsIncrease(head, rest);
    }
    assert WideDates([head] + rest) == WideDates(acc) + RowDates(t) by {
      SplitRowDates(t);
      ConsWideDates(head, rest);
    }
    forall w | w in rest
      ensures FindRow(t, w.date) == FindRow(t[1..], w.date)
    {
      assert w.date in WideDates(rest);
    }
    FindWideBefore(acc, head.date);
    ConsCells(head, rest, acc, k, t, acc, t[1..]);
  }

  /** Both tables have a row on the first date: the two are joined. */
  lemma StepBoth(acc: seq<WideRow>, k: nat, t: seq<AssetRow>, rest: seq<WideRow>)
    requires WideIncrease(acc) && RowsIncrease(t)
    requires forall w :: w in acc ==> |w.cells| == k
    requires acc != [] && t != [] && t[0].date == acc[0].date
    requires MergedFrom(rest, acc[1..], k, t[1..]) && forall w :: w in rest ==> |w.cells| == k + 1
    ensures MergedFrom([WideRow(t[0].date, acc[0].cells + [Some(t[0])])] + rest, acc, k, t)
    ensures forall w :: w in [WideRow(t[0].date, acc[0].cells + [Some(t[0])])] + rest ==> |w.cells| == k + 1
  {
    var head := WideRow(t[0].date, acc[0].cells + [Some(t[0])]);
    assert forall d :: d in WideDates(rest) ==> d > head.date by {
      WideDatesAfter(acc);
      RowDatesAfter(t);
    }
    assert WideIncrease([head] + rest) by {
      ConsIncrease(head, rest);
    }
    assert WideDates([head] + rest) == WideDates(acc) + RowDates(t) by {
      SplitWideDates(acc);
      SplitRowDates(t);
      ConsWideDates(head, rest);
    }
    forall w | w in rest
      ensures FindWide(acc, w.date) == FindWide(acc[1..], w.date)
      ensures FindRow(t, w.date) == FindRow(t[1..], w.date)
    {
      assert w.date in WideDates(rest);
    }
    ConsCells(head, rest, acc, k, t, acc[1..], t[1..]);
  }

  /** A row placed before a merged table keeps the cell equations when the lookups agree on the rest. */
  lemma ConsCells(head: WideRow, rest: seq<WideRow>, acc: seq<WideRow>, k: nat, t: seq<AssetRow>,
                  acc': seq<WideRow>, t': seq<AssetRow>)
    requires head.cells == LeftCells(FindWide(acc, head.date), k) + [FindRow(t, head.date)]
    requires CellsFrom(rest, acc', k, t')
    requires forall w :: w in rest ==> FindWide(acc, w.date) == FindWide(acc', w.date)
    requires forall w :: w in rest ==> FindRow(t, w.date) == FindRow(t', w.date)
    ensures CellsFrom([head] + rest, acc, k, t)
  {
    forall w | w in [head] + rest
      ensures w.cells == LeftCells(FindWide(acc, w.date), k) + [FindRow(t, w.date)]
    {
      if w != head {
        assert w in rest;
      }
    }
  }

  /** A date before a sorted table's first row has no row in it. */
  lemma FindRowBefore(t: seq<AssetRow>, d: int)
    requires RowsIncrease(t) && t != [] && d < t[0].date
    ensures FindRow(t, d) == None
  {
    RowDatesFrom(t);
  }

  lemma FindWideBefore(w: seq<WideRow>, d: int)
    requires WideIncrease(w) && w != [] && d < w[0].date
    ensures FindWide(w, d) == None
  {
    WideDatesFrom(w);
  }

  lemma RowDatesFrom(t: seq<AssetRow>)
    requires RowsIncrease(t) && t != []
    ensures forall d :: d in RowDates(t) ==> d >= t[0].date
  {
    forall d | d in RowDates(t) ensures d >= t[0].date {
      var x :| x in t && x.date == d;
      var i :| 0 <= i < |t| && t[i] == x;
      assert i == 0 || t[0].date < t[i].date;
    }
  }

  lemma WideDatesFrom(w: seq<WideRow>)
    requires WideIncrease(w) && w != []
    ensures forall d :: d in WideDates(w) ==> d >= w[0].date
  {
    forall d | d in WideDates(w) ensures d >= w[0].date {
      var x :| x in w && x.date == d;
      var i :| 0 <= i < |w| && w[i] == x;
      assert i == 0 || w[0].date < w[i].date;
    }
  }

  /** The dates of a sorted table after its first row all follow the first row's date. */
  lemma RowDatesAfter(t: seq<AssetRow>)
    requires RowsIncrease(t) && t != []
    ensures forall d :: d in RowDates(t[1..]) ==> d > t[0].date
  {
    forall d | d in RowDates(t[1..]) ensures d > t[0].date {
      var x :| x in t[1..] && x.date == d;
      var i :| 0 <= i < |t[1..]| && t[1..][i] == x;
      assert t[i + 1] == x;
    }
  }

  lemma WideDatesAfter(w: seq<WideRow>)
    requires WideIncrease(w) && w != []
    ensures forall d :: d in WideDates(w[1..]) ==> d > w[0].date
  {
    forall d | d in WideDates(w[1..]) ensures d > w[0].date {
      var x :| x in w[1..] && x.date == d;
      var i :| 0 <= i < |w[1..]| && w[1..][i] == x;
      assert w[i + 1] == x;
    }
  }

  lemma SplitWideDates(w: seq<WideRow>)
    requires w != []
    ensures WideDates(w) == {w[0].date} + WideDates(w[1..])
  {
    assert w == [w[0]] + w[1..];
  }

  lemma SplitRowDates(t: seq<AssetRow>)
    requires t != []
    ensures RowDates(t) == {t[0].date} + RowDates(t[1..])
  {
    assert t == [t[0]] + t[1..];
  }

  lemma ConsWideDates(head: WideRow, rest: seq<WideRow>)
    ensures WideDates([head] + rest) == {head.date} + WideDates(rest)
  {
    assert forall x :: x in [head] + rest <==> x == head || x in rest;
  }

  /** Putting a row before a sorted table whose dates all follow it keeps it sorted. */
  lemma ConsIncrease(head: WideRow, rest: seq<WideRow>)
    requires WideIncrease(rest)
    requires forall d :: d in WideDates(rest) ==> d > head.date
    ensures WideIncrease([head] + rest)
  {
    var out := [head] + rest;
    forall i, j | 0 <= i < j < |out| ensures out[i].date < out[j].date {
      if i == 0 {
        assert out[j] in rest;
        assert out[j].date in WideDates(rest);
      } else {
        assert out[i] == rest[i - 1] && out[j] == rest[j - 1];
      }
    }
  }
}
