/** Duplicate rows by one column (src/operations/duplicates.py;
    operations/duplicates.py is the same code): marking every row whose value
    occurs more than once, and keeping only the first row of each value. */
module Duplicates {
  import opened PyStr
  import opened Cells
  import opened Tables

  /** The values of a column as Python compares them. */
  function Keys(col: seq<Cell>): (ks: seq<Key>)
    ensures |ks| == |col| && forall i :: 0 <= i < |col| ==> ks[i] == KeyOf(col[i])
  {
    seq(|col|, i requires 0 <= i < |col| => KeyOf(col[i]))
  }

  /** `duplicated(keep=False)`: row i is marked iff some other row holds the
      same value. */
  function DuplicatedAll(ks: seq<Key>): (m: seq<bool>)
    ensures |m| == |ks|
    ensures forall i :: 0 <= i < |ks| ==> (m[i] <==> exists j :: 0 <= j < |ks| && j != i && ks[j] == ks[i])
  {
    seq(|ks|, i requires 0 <= i < |ks| => exists j :: 0 <= j < |ks| && j != i && ks[j] == ks[i])
  }

  function BoolCells(bs: seq<bool>): (r: seq<Cell>)
    ensures |r| == |bs| && forall i :: 0 <= i < |bs| ==> r[i] == Bool(bs[i])
  {
    seq(|bs|, i requires 0 <= i < |bs| => Bool(bs[i]))
  }

  /** `apply_mark_duplicates(dataframe, col, new_col_name, texts)`. */
  function MarkDuplicates(t: Table, col: string, newName: string): Reply
    requires t.Valid()
  {
    if col !in t.names then Reply(t, Error, Msg("column_not_found", [col]))
    else
      Reply(SetColumn(t, newName, BoolCells(DuplicatedAll(Keys(Column(t, col))))), Success,
            Msg("duplicates_marked_success", [col, newName]))
  }

  /** A missing column is an error with the input; otherwise the marks go
      into `new_col_name` (appended, or replacing a column of that name),
      row i is marked iff its value occurs in another row, and no other
      column changes. */
  lemma MarkDuplicatesSpec(t: Table, col: string, newName: string)
    requires t.Valid()
    ensures col !in t.names ==> MarkDuplicates(t, col, newName) == Reply(t, Error, Msg("column_not_found", [col]))
    ensures col in t.names ==>
              var r := MarkDuplicates(t, col, newName);
              var ks := Keys(Column(t, col));
              r.kind == Success && r.table.Valid() && r.table.rows == t.rows && newName in r.table.names
              && (newName !in t.names ==> r.table.names == t.names + [newName] && r.table.cols[..|t.cols|] == t.cols)
              && (newName in t.names ==> OnlyColumnChanged(t, r.table, newName))
              && forall i :: 0 <= i < t.rows ==>
                   (Column(r.table, newName)[i] == Bool(true) <==> exists j :: 0 <= j < t.rows && j != i && ks[j] == ks[i])
  {
    if col in t.names {
      var r := MarkDuplicates(t, col, newName);
      if newName !in t.names {
        assert r.table.names[|t.names|] == newName;
        assert forall k :: 0 <= k < |t.names| ==> r.table.names[k] == t.names[k] != newName;
        assert IndexOf(r.table.names, newName) == |t.names|;
      }
    }
  }

  // ---------------------------------------------------------- drop first

  predicate Increasing(idx: seq<nat>)
  {
    forall a, b :: 0 <= a < b < |idx| ==> idx[a] < idx[b]
  }

  /** The rows `drop_duplicates(keep='first')` keeps: those whose value does
      not occur in an earlier row, in their original order. */
  function FirstOccurrences(ks: seq<Key>): (idx: seq<nat>)
    ensures |idx| <= |ks| && forall k :: 0 <= k < |idx| ==> idx[k] < |ks|
  {
    if ks == [] then []
    else
      var n := |ks| - 1;
      var p := FirstOccurrences(ks[..n]);
      if ks[n] in ks[..n] then p else p + [n]
  }

  /** The kept rows are in increasing order, and row i is kept iff its
      value does not occur before it. */
  lemma {:induction false} FirstOccurrencesSpec(ks: seq<Key>)
    ensures Increasing(FirstOccurrences(ks))
    ensures forall i :: 0 <= i < |ks| ==> (i in FirstOccurrences(ks) <==> ks[i] !in ks[..i])
  {
    if ks != [] {
      var n := |ks| - 1;
      FirstOccurrencesSpec(ks[..n]);
      assert forall i :: 0 <= i < n ==> ks[..n][..i] == ks[..i];
    }
  }

  /** `apply_remove_duplicates(dataframe, col, texts)`. */
  function RemoveDuplicates(t: Table, col: string): Reply
    requires t.Valid()
  {
    if col !in t.names then Reply(t, Error, Msg("column_not_found", [col]))
    else
      var kept := SelectRows(t, FirstOccurrences(Keys(Column(t, col))));
      Reply(kept, Success, Msg("duplicates_removed_success", [col, NatToString(t.rows - kept.rows)]))
  }

  /** The values at the kept rows are pairwise different. */
  lemma KeptDistinct(ks: seq<Key>)
    ensures var idx := FirstOccurrences(ks);
            forall a, b :: 0 <= a < b < |idx| ==> ks[idx[a]] != ks[idx[b]]
  {
    var idx := FirstOccurrences(ks);
    FirstOccurrencesSpec(ks);
    forall a, b | 0 <= a < b < |idx| ensures ks[idx[a]] != ks[idx[b]] {
      assert idx[b] in idx;
      assert ks[..idx[b]][idx[a]] == ks[idx[a]];
    }
  }

  /** Every value of the column is the value of some kept row. */
  lemma {:induction false} KeptCovers(ks: seq<Key>, i: nat)
    requires i < |ks|
    ensures exists a :: 0 <= a < |FirstOccurrences(ks)| && ks[FirstOccurrences(ks)[a]] == ks[i]
    decreases i
  {
    var idx := FirstOccurrences(ks);
    FirstOccurrencesSpec(ks);
    if ks[i] !in ks[..i] {
      assert i in idx;
      var a :| 0 <= a < |idx| && idx[a] == i;
    } else {
      var j :| 0 <= j < i && ks[..i][j] == ks[i];
      KeptCovers(ks, j);
    }
  }

  function KeySet(ks: seq<Key>): set<Key> { set k | k in ks }

  lemma {:induction false} DistinctCard(ks: seq<Key>)
    requires forall a, b :: 0 <= a < b < |ks| ==> ks[a] != ks[b]
    ensures |KeySet(ks)| == |ks|
  {
    if ks != [] {
      var n := |ks| - 1;
      DistinctCard(ks[..n]);
      assert KeySet(ks) == KeySet(ks[..n]) + {ks[n]};
      assert ks[n] !in KeySet(ks[..n]);
    }
  }

  /** The values at the kept rows, in order. */
  function KeptKeys(ks: seq<Key>): (kk: seq<Key>)
    ensures |kk| == |FirstOccurrences(ks)|
    ensures forall a :: 0 <= a < |kk| ==> kk[a] == ks[FirstOccurrences(ks)[a]]
  {
    var idx := FirstOccurrences(ks);
    seq(|idx|, a requires 0 <= a < |idx| => ks[idx[a]])
  }

  /** Exactly one row is kept per distinct value. */
  lemma KeptCount(ks: seq<Key>)
    ensures |FirstOccurrences(ks)| == |KeySet(ks)|
  {
    var kk := KeptKeys(ks);
    KeptDistinct(ks);
    DistinctCard(kk);
    assert KeySet(kk) <= KeySet(ks);
    forall k | k in KeySet(ks) ensures k in KeySet(kk) {
      var i :| 0 <= i < |ks| && ks[i] == k;
      KeptCovers(ks, i);
    }
    assert KeySet(kk) == KeySet(ks);
  }

  /** A missing column is an error with the input. Otherwise the result
      holds the first row of each value, in the original order: its rows
      are a subsequence of the input's, its values in `col` are pairwise
      different, there is one row per distinct value, and the reported
      count is the number of rows dropped. */
  lemma RemoveDuplicatesSpec(t: Table, col: string)
    requires t.Valid()
    ensures col !in t.names ==> RemoveDuplicates(t, col) == Reply(t, Error, Msg("column_not_found", [col]))
    ensures col in t.names ==>
              var r := RemoveDuplicates(t, col);
              var ks := Keys(Column(t, col));
              var idx := FirstOccurrences(ks);
              var rk := Keys(Column(r.table, col));
              r.kind == Success && r.table.Valid() && r.table.names == t.names
              && Increasing(idx) && r.table.rows == |idx| == |KeySet(ks)|
              && (forall j, a :: 0 <= j < |t.cols| && 0 <= a < |idx| ==> r.table.cols[j][a] == t.cols[j][idx[a]])
              && (forall a, b :: 0 <= a < b < r.table.rows ==> rk[a] != rk[b])
              && r.msg == Msg("duplicates_removed_success", [col, NatToString(t.rows - r.table.rows)])
  {
    if col in t.names {
      var ks := Keys(Column(t, col));
      var idx := FirstOccurrences(ks);
      var r := RemoveDuplicates(t, col).table;
      assert r == SelectRows(t, idx);
      assert Increasing(idx) by { FirstOccurrencesSpec(ks); }
      assert |idx| == |KeySet(ks)| by { KeptCount(ks); }
      KeptColumnDistinct(t, col);
    }
  }

  /** The values of `col` in the kept table are pairwise different. */
  lemma KeptColumnDistinct(t: Table, col: string)
    requires t.Valid() && col in t.names
    ensures var ks := Keys(Column(t, col));
            var rk := Keys(Column(SelectRows(t, FirstOccurrences(ks)), col));
            forall a, b :: 0 <= a < b < |rk| ==> rk[a] != rk[b]
  {
    var ks := Keys(Column(t, col));
    var idx := FirstOccurrences(ks);
    KeptDistinct(ks);
    KeptColumn(t, col, idx);
  }

  /** The kept column holds the values at the kept rows. */
  lemma KeptColumn(t: Table, col: string, idx: seq<nat>)
    requires t.Valid() && col in t.names
    requires forall k :: 0 <= k < |idx| ==> idx[k] < t.rows
    ensures var ks := Keys(Column(t, col));
            var rk := Keys(Column(SelectRows(t, idx), col));
            |rk| == |idx| && forall a :: 0 <= a < |idx| ==> rk[a] == ks[idx[a]]
  {
    var r := SelectRows(t, idx);
    var j := IndexOf(t.names, col);
    assert Column(r, col) == r.cols[j];
  }

  /** A column whose values are pairwise different keeps every row. */
  lemma {:induction false} FirstOccurrencesOfDistinct(ks: seq<Key>)
    requires forall a, b :: 0 <= a < b < |ks| ==> ks[a] != ks[b]
    ensures FirstOccurrences(ks) == Range(0, |ks|)
  {
    if ks != [] {
      var n := |ks| - 1;
      FirstOccurrencesOfDistinct(ks[..n]);
      assert ks[n] !in ks[..n];
      RangeSnoc(n);
    }
  }

  lemma RangeSnoc(n: nat)
    ensures Range(0, n + 1) == Range(0, n) + [n]
  {
  }

  lemma SelectAll(t: Table)
    requires t.Valid()
    ensures SelectRows(t, Range(0, t.rows)) == t
  {
    var r := SelectRows(t, Range(0, t.rows));
    forall j | 0 <= j < |t.cols| ensures r.cols[j] == t.cols[j] { }
  }

  /** Removing duplicates twice leaves the table of the first removal. */
  lemma RemoveDuplicatesIdempotent(t: Table, col: string)
    requires t.Valid()
    ensures RemoveDuplicates(RemoveDuplicates(t, col).table, col).table == RemoveDuplicates(t, col).table
  {
    if col in t.names {
      RemoveDuplicatesSpec(t, col);
      var r := RemoveDuplicates(t, col).table;
      FirstOccurrencesOfDistinct(Keys(Column(r, col)));
      SelectAll(r);
    }
  }

  /** Every row that removal drops is marked as a duplicate. */
  lemma DroppedAreMarked(ks: seq<Key>, i: nat)
    requires i < |ks| && i !in FirstOccurrences(ks)
    ensures DuplicatedAll(ks)[i]
  {
    FirstOccurrencesSpec(ks);
    var j :| 0 <= j < i && ks[..i][j] == ks[i];
  }
}
