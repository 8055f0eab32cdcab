/** Column renaming (operations/rename_column.py). */
module RenameColumn {
  import opened Tables

  /** `rename(columns={old_col: new_col_name})`: every column called `from` is renamed `to`. */
  function Renamed(names: seq<string>, from: string, to: string): (r: seq<string>)
    ensures |r| == |names| && forall j :: 0 <= j < |names| ==> r[j] == if names[j] == from then to else names[j]
  {
    seq(|names|, j requires 0 <= j < |names| => if names[j] == from then to else names[j])
  }

  /** `apply_rename_column(dataframe, old_col, new_col_name, texts)`. */
  function ApplyRenameColumn(t: Table, from: string, to: string): Reply
  {
    if from !in t.names then Reply(t, Error, Msg("column_not_found", [from]))
    else if to in t.names then Reply(t, Error, Msg("column_already_exists", [to]))
    else Reply(Table(Renamed(t.names, from, to), t.cols, t.rows), Success, Msg("rename_success", [from, to]))
  }

  /** A missing old name is reported before a taken new name (renaming a
      column to its own name is therefore refused); on success the column
      keeps its position and cells, the old name is gone, the new one is
      there, and distinct names stay distinct. */
  lemma ApplyRenameColumnSpec(t: Table, from: string, to: string)
    ensures from !in t.names ==> ApplyRenameColumn(t, from, to) == Reply(t, Error, Msg("column_not_found", [from]))
    ensures from in t.names && to in t.names ==> ApplyRenameColumn(t, from, to) == Reply(t, Error, Msg("column_already_exists", [to]))
    ensures from in t.names && to !in t.names ==>
              var r := ApplyRenameColumn(t, from, to);
              r.kind == Success && r.table.cols == t.cols && r.table.rows == t.rows
              && |r.table.names| == |t.names| && from !in r.table.names && to in r.table.names
              && (forall j :: 0 <= j < |t.names| ==> (r.table.names[j] == to <==> t.names[j] == from))
              && (forall j :: 0 <= j < |t.names| && t.names[j] != from ==> r.table.names[j] == t.names[j])
              && (DistinctNames(t.names) ==> DistinctNames(r.table.names))
  {
    if from in t.names && to !in t.names {
      var r := ApplyRenameColumn(t, from, to);
      var j := IndexOf(t.names, from);
      assert r.table.names[j] == to;
    }
  }

  /** Renaming back restores the table. */
  lemma RenameBack(t: Table, from: string, to: string)
    requires from in t.names && to !in t.names
    ensures var r := ApplyRenameColumn(t, from, to).table;
            ApplyRenameColumn(r, to, from).table == t
  {
    ApplyRenameColumnSpec(t, from, to);
    var r := ApplyRenameColumn(t, from, to).table;
    assert Renamed(r.names, to, from) == t.names;
  }
}
