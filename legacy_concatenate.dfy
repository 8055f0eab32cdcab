/** The older column concatenation (operations/concatenate.py): the same
    operation with every value rendered by `astype(str)`. */
module LegacyConcatenate {
  import opened PyStr
  import opened Cells
  import opened Tables
  import Concatenate

  /** `apply_concatenate(dataframe, cols_to_concat, new_col_name, separator, texts)`. */
  function ApplyConcatenate(t: Table, sel: seq<string>, newName: string, sep: string): Reply
    requires t.Valid() && |sel| > 0
  {
    Concatenate.ConcatenateWith(t, sel, newName, sep, Str)
  }

  /** The two copies differ only where a value is an integral float: here it
      keeps its point (`5.0`), the newer copy drops it (`5`). */
  lemma RenderingDiffers(t: Table, sel: seq<string>, newName: string, sep: string)
    requires t.Valid() && |sel| > 0
    requires forall j, i :: 0 <= j < |t.cols| && 0 <= i < t.rows ==> !(t.cols[j][i].Float? && IsIntegral(t.cols[j][i].x))
    ensures ApplyConcatenate(t, sel, newName, sep) == Concatenate.ApplyConcatenate(t, sel, newName, sep)
  {
    if Concatenate.AllPresent(t, sel) {
      forall i | 0 <= i < t.rows
        ensures Concatenate.RowValues(t, sel, i, Str) == Concatenate.RowValues(t, sel, i, SafeStr)
      {
        forall k | 0 <= k < |sel| ensures Str(Column(t, sel[k])[i]) == SafeStr(Column(t, sel[k])[i]) {
          var j := IndexOf(t.names, sel[k]);
          assert Column(t, sel[k])[i] == t.cols[j][i];
        }
      }
      assert Concatenate.JoinedColumn(t, sel, sep, Str) == Concatenate.JoinedColumn(t, sel, sep, SafeStr);
    }
  }

  /** A float column holding 5.0 concatenates as `5.0` here and as `5` in
      the newer copy. */
  lemma RenderingExample()
    ensures var t := Table(["a"], [[Float(5.0, "5.0")]], 1);
            ApplyConcatenate(t, ["a"], "c", "-").table.cols[1] == [Text("5.0")]
            && Concatenate.ApplyConcatenate(t, ["a"], "c", "-").table.cols[1] == [Text("5")]
  {
    var t := Table(["a"], [[Float(5.0, "5.0")]], 1);
    assert Concatenate.MissingColumns(t.names, ["a"]) == [];
    assert Concatenate.RowValues(t, ["a"], 0, Str) == ["5.0"];
    assert Concatenate.RowValues(t, ["a"], 0, SafeStr) == [IntToString(5)];
    assert IntToString(5) == "5";
  }
}
