/** Column merging (src/operations/merge_columns.py): concatenation that
    may first turn the missing values of the selected columns into empty
    text. */
module MergeColumns {
  import opened PyStr
  import opened Cells
  import opened Tables
  import opened Concatenate

  /** `fillna('')` on one column. */
  function Filled(col: seq<Cell>): (r: seq<Cell>)
    ensures |r| == |col| && forall i :: 0 <= i < |col| ==> r[i] == if IsMissing(col[i]) then Text("") else col[i]
  {
    seq(|col|, i requires 0 <= i < |col| => if IsMissing(col[i]) then Text("") else col[i])
  }

  /** `new_df[cols] = new_df[cols].fillna('')`: every column whose name is
      selected is filled. */
  function FillSelected(t: Table, sel: seq<string>): (r: Table)
    requires t.Valid()
    ensures r.Valid() && r.names == t.names && r.rows == t.rows && |r.cols| == |t.cols|
    ensures forall j :: 0 <= j < |t.cols| ==> r.cols[j] == if t.names[j] in sel then Filled(t.cols[j]) else t.cols[j]
  {
    Table(t.names, seq(|t.cols|, j requires 0 <= j < |t.cols| =>
                         if t.names[j] in sel then Filled(t.cols[j]) else t.cols[j]), t.rows)
  }

  /** `apply_merge_columns(dataframe, cols_to_merge, new_col_name, separator, fill_missing, texts)`. */
  function ApplyMergeColumns(t: Table, sel: seq<string>, newName: string, sep: string, fill: bool): Reply
    requires t.Valid() && |sel| > 0
  {
    var missing := MissingColumns(t.names, sel);
    if |missing| > 0 then Reply(t, Error, Msg("column_not_found", [Join(missing, ", ")]))
    else
      var base := if fill then FillSelected(t, sel) else t;
      Reply(SetColumn(base, newName, JoinedColumn(base, sel, sep, SafeStr)), Success,
            Msg("merge_success", [newName, NatToString(|sel|)]))
  }

  /** How a merged cell renders an original value: a missing value (NaN or
      `None`) is empty text when filling, and `nan` or `None` otherwise. */
  function MergedText(c: Cell, fill: bool): (s: string)
    ensures IsMissing(c) && fill ==> s == ""
    ensures c.Missing? && !fill ==> s == "nan"
    ensures c.PyNone? && !fill ==> s == "None"
    ensures !IsMissing(c) ==> s == SafeStr(c)
  {
    if fill && IsMissing(c) then "" else SafeStr(c)
  }

  lemma FilledRowValues(t: Table, sel: seq<string>, i: nat, fill: bool)
    requires t.Valid() && AllPresent(t, sel) && i < t.rows
    ensures var base := if fill then FillSelected(t, sel) else t;
            forall k :: 0 <= k < |sel| ==> RowValues(base, sel, i, SafeStr)[k] == MergedText(Column(t, sel[k])[i], fill)
  {
    var base := if fill then FillSelected(t, sel) else t;
    forall k | 0 <= k < |sel| ensures RowValues(base, sel, i, SafeStr)[k] == MergedText(Column(t, sel[k])[i], fill) {
      assert IndexOf(base.names, sel[k]) == IndexOf(t.names, sel[k]);
    }
  }

  /** Error, naming the missing columns, when a selected column is missing.
      Otherwise cell i of the new column joins the row's values, a missing
      one rendered as empty text exactly when filling; filling changes the
      selected columns only and only at their missing values; no other
      column changes. */
  lemma ApplyMergeColumnsSpec(t: Table, sel: seq<string>, newName: string, sep: string, fill: bool)
    requires t.Valid() && |sel| > 0
    ensures !AllPresent(t, sel) ==>
              ApplyMergeColumns(t, sel, newName, sep, fill)
              == Reply(t, Error, Msg("column_not_found", [Join(MissingColumns(t.names, sel), ", ")]))
    ensures AllPresent(t, sel) ==>
              var r := ApplyMergeColumns(t, sel, newName, sep, fill);
              r.kind == Success && r.msg == Msg("merge_success", [newName, NatToString(|sel|)])
              && r.table.Valid() && r.table.rows == t.rows && newName in r.table.names
              && (newName !in t.names ==> r.table.names == t.names + [newName])
              && (newName in t.names ==> r.table.names == t.names)
              && (forall j :: 0 <= j < |t.cols| && t.names[j] != newName ==>
                    r.table.cols[j] == if fill && t.names[j] in sel then Filled(t.cols[j]) else t.cols[j])
              && forall i :: 0 <= i < t.rows ==>
                   Column(r.table, newName)[i]
                   == Text(Join(seq(|sel|, k requires 0 <= k < |sel| => MergedText(Column(t, sel[k])[i], fill)), sep))
  {
    if AllPresent(t, sel) {
      var base := if fill then FillSelected(t, sel) else t;
      var col := JoinedColumn(base, sel, sep, SafeStr);
      SetColumnSpec(base, newName, col);
      forall i | 0 <= i < t.rows
        ensures col[i] == Text(Join(seq(|sel|, k requires 0 <= k < |sel| => MergedText(Column(t, sel[k])[i], fill)), sep))
      {
        FilledRowValues(t, sel, i, fill);
        assert RowValues(base, sel, i, SafeStr) == seq(|sel|, k requires 0 <= k < |sel| => MergedText(Column(t, sel[k])[i], fill));
      }
      var r := SetColumn(base, newName, col);
      forall j | 0 <= j < |t.cols| && t.names[j] != newName ensures r.cols[j] == base.cols[j] {
        if newName in t.names {
          assert j != IndexOf(t.names, newName);
        }
      }
    }
  }

  /** Without filling, merging is concatenation. */
  lemma MergeWithoutFillIsConcatenate(t: Table, sel: seq<string>, newName: string, sep: string)
    requires t.Valid() && |sel| > 0
    ensures ApplyMergeColumns(t, sel, newName, sep, false).table == ApplyConcatenate(t, sel, newName, sep).table
  {
  }
}
