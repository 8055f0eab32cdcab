/** Column concatenation (src/operations/concatenate.py): a new column
    whose cells join the rendered values of the selected columns. The
    rendering is a parameter, so that the older copy, which renders with
    `str`, shares the definition. */
module Concatenate {
  import opened PyStr
  import opened Cells
  import opened Tables

  /** `[col for col in cols if col not in dataframe.columns]` */
  function MissingColumns(names: seq<string>, sel: seq<string>): (m: seq<string>)
    ensures forall k :: 0 <= k < |m| ==> m[k] in sel && m[k] !in names
    ensures forall c :: c in sel && c !in names ==> c in m
    ensures m == [] <==> forall c :: c in sel ==> c in names
  {
    if sel == [] then []
    else (if sel[0] in names then [] else [sel[0]]) + MissingColumns(names, sel[1..])
  }

  predicate AllPresent(t: Table, sel: seq<string>)
  {
    forall k :: 0 <= k < |sel| ==> sel[k] in t.names
  }

  /** The rendered values of row i in the selected columns, in selection
      order. */
  function RowValues(t: Table, sel: seq<string>, i: nat, render: Cell -> string): (vs: seq<string>)
    requires t.Valid() && AllPresent(t, sel) && i < t.rows
    ensures |vs| == |sel| && forall k :: 0 <= k < |sel| ==> vs[k] == render(Column(t, sel[k])[i])
  {
    seq(|sel|, k requires 0 <= k < |sel| => render(Column(t, sel[k])[i]))
  }

  /** The row-wise `separator.join` of the rendered values. */
  function JoinedColumn(t: Table, sel: seq<string>, sep: string, render: Cell -> string): (c: seq<Cell>)
    requires t.Valid() && AllPresent(t, sel)
    ensures |c| == t.rows && forall i :: 0 <= i < t.rows ==> c[i] == Text(Join(RowValues(t, sel, i, render), sep))
  {
    seq(t.rows, i requires 0 <= i < t.rows => Text(Join(RowValues(t, sel, i, render), sep)))
  }

  /** `apply_concatenate` with the given rendering of a cell. */
  function ConcatenateWith(t: Table, sel: seq<string>, newName: string, sep: string, render: Cell -> string): Reply
    requires t.Valid() && |sel| > 0
  {
    var missing := MissingColumns(t.names, sel);
    if |missing| > 0 then Reply(t, Error, Msg("column_not_found", [Join(missing, ", ")]))
    else
      Reply(SetColumn(t, newName, JoinedColumn(t, sel, sep, render)), Success,
            Msg("concatenate_success", [newName, NatToString(|sel|)]))
  }

  /** `apply_concatenate(dataframe, cols_to_concat, new_col_name, separator, texts)`. */
  function ApplyConcatenate(t: Table, sel: seq<string>, newName: string, sep: string): Reply
    requires t.Valid() && |sel| > 0
  {
    ConcatenateWith(t, sel, newName, sep, SafeStr)
  }

  /** Error, naming every missing column, when any selected column is
      missing; otherwise only the new column is added (or replaced), and
      its cell i joins the rendered values of row i in selection order. */
  lemma ConcatenateWithSpec(t: Table, sel: seq<string>, newName: string, sep: string, render: Cell -> string)
    requires t.Valid() && |sel| > 0
    ensures !AllPresent(t, sel) ==>
              ConcatenateWith(t, sel, newName, sep, render)
              == Reply(t, Error, Msg("column_not_found", [Join(MissingColumns(t.names, sel), ", ")]))
    ensures AllPresent(t, sel) ==>
              var r := ConcatenateWith(t, sel, newName, sep, render);
              r.kind == Success && r.table.Valid() && r.table.rows == t.rows && newName in r.table.names
              && (newName !in t.names ==> r.table.names == t.names + [newName] && r.table.cols[..|t.cols|] == t.cols)
              && (newName in t.names ==> OnlyColumnChanged(t, r.table, newName))
              && forall i :: 0 <= i < t.rows ==>
                   Column(r.table, newName)[i] == Text(Join(RowValues(t, sel, i, render), sep))
  {
    var missing := MissingColumns(t.names, sel);
    if !AllPresent(t, sel) {
      var k :| 0 <= k < |sel| && sel[k] !in t.names;
      assert sel[k] in missing;
    } else {
      SetColumnSpec(t, newName, JoinedColumn(t, sel, sep, render));
    }
  }

  /** With a one-character separator that occurs in no rendered value,
      splitting a new cell on it gives the row's rendered values back. */
  lemma ConcatenateRoundTrip(t: Table, sel: seq<string>, sep: string, render: Cell -> string, i: nat)
    requires t.Valid() && |sel| > 0 && AllPresent(t, sel) && i < t.rows && |sep| == 1
    requires forall k :: 0 <= k < |sel| ==> !Contains(render(Column(t, sel[k])[i]), sep)
    ensures SplitOn(JoinedColumn(t, sel, sep, render)[i].s, sep) == RowValues(t, sel, i, render)
  {
    SplitOnJoin(RowValues(t, sel, i, render), sep);
  }
}
