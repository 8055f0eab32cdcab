/** The older single-file application (main.py): its own copies of masking,
    trimming and the surname split, the language toggle, the operation
    lookup and the two split operations, which change the current table in
    place. */
module LegacyApp {
  import opened PyStr
  import opened Cells
  import opened Tables
  import opened ColumnNames
  import opened LegacyMasking
  import opened Splitting
  import App

  /** The operations the older window offers, in menu order. */
  const OperationKeys: seq<string> := ["op_mask", "op_trim", "op_split_space", "op_split_colon", "op_split_surname"]

  /** `trim_spaces(data)`: `str(data).strip()`. */
  function TrimSpaces(c: Cell): (r: string)
    ensures Stripped(r) && TrimmedFrom(r, Str(c))
  {
    StripSpec(Str(c));
    Strip(Str(c))
  }

  lemma TrimSpacesIdempotent(c: Cell)
    ensures TrimSpaces(Text(TrimSpaces(c))) == TrimSpaces(c)
  {
    StripIdempotent(Str(c));
  }

  /** The language after `toggle_language`. */
  function Toggled(lang: string): string
  {
    if lang == "en" then "tr" else "en"
  }

  /** The toggle always lands on one of the two languages and changes the
      language; toggling twice gives back exactly the two known languages. */
  lemma ToggledSpec(lang: string)
    ensures Toggled(lang) in {"en", "tr"} && Toggled(lang) != lang
    ensures Toggled(Toggled(lang)) == lang <==> lang in {"en", "tr"}
  {
  }

  // --------------------------------------------------- split on delimiter

  /** The part names of the older split: `{col}_part1 .. {col}_partm` as
      they are, with no suffixing. */
  function PlainPartNames(col: string, m: nat): (names: seq<string>)
    ensures |names| == m && forall i :: 0 <= i < m ==> names[i] == PartBase(col, i)
  {
    seq(m, i requires 0 <= i < m => PartBase(col, i))
  }

  /** The table `split_column_operation(col, delimiter)` builds: `col`
      replaced, at its position, by one column per piece of the longest
      split. */
  function LegacySplitTable(t: Table, col: string, d: string): (r: Table)
    requires t.Valid() && |d| == 1 && col in t.names
  {
    var j := IndexOf(t.names, col);
    var strs := Strs(t.cols[j]);
    var m := MaxPieces(strs, d);
    if m == 0 then t
    else Table(t.names[..j] + PlainPartNames(col, m) + t.names[j + 1..], t.cols[..j] + PartColumns(strs, d, m) + t.cols[j + 1..], t.rows)
  }

  lemma PartBaseInjective(col: string, i: nat, k: nat)
    requires PartBase(col, i) == PartBase(col, k)
    ensures i == k
  {
    var p := |col| + 5;
    assert NatToString(i + 1) == PartBase(col, i)[p..];
    assert NatToString(k + 1) == PartBase(col, k)[p..];
    NatToStringInjective(i + 1, k + 1);
  }

  /** When no `{col}_part{i}` is a column yet, the unique naming of the
      newer split picks exactly the plain names. */
  lemma {:induction false} PlainNamesWhenFree(col: string, m: nat, existing: seq<string>)
    requires forall i :: 0 <= i < m ==> PartBase(col, i) !in existing
    ensures PartNamesFor(col, m, existing) == PlainPartNames(col, m)
  {
    if m > 0 {
      var prev := PlainPartNames(col, m - 1);
      var base := PartBase(col, m - 1);
      PlainNamesWhenFree(col, m - 1, existing);
      assert base !in NameSet(existing + prev) by {
        forall i | 0 <= i < m - 1 ensures prev[i] != base {
          if prev[i] == base { PartBaseInjective(col, i, m - 1); }
        }
      }
      assert PartNamesFor(col, m, existing) == prev + [base];
      assert PlainPartNames(col, m) == prev + [base];
    }
  }

  /** The older split builds the same cells as the newer one, and the same
      column names whenever none of the plain part names is taken. */
  lemma LegacySplitAgrees(t: Table, col: string, d: string)
    requires t.Valid() && |d| == 1 && col in t.names && AnyContains(Strs(Column(t, col)), d)
    ensures LegacySplitTable(t, col, d).cols == DelimiterReply(t, col, d).table.cols
    ensures LegacySplitTable(t, col, d).rows == t.rows
    ensures (forall i :: 0 <= i < MaxPieces(Strs(Column(t, col)), d) ==> PartBase(col, i) !in t.names) ==>
              LegacySplitTable(t, col, d) == DelimiterReply(t, col, d).table
  {
    var j := IndexOf(t.names, col);
    var m := MaxPieces(Strs(t.cols[j]), d);
    if forall i :: 0 <= i < m ==> PartBase(col, i) !in t.names {
      PlainNamesWhenFree(col, m, t.names);
    }
  }

  /** As written, the older split repeats a name when `{col}_part1` is
      already a column: the result then has two columns of that name. */
  lemma LegacySplitRepeatsNames(t: Table, col: string, d: string)
    requires t.Valid() && |d| == 1 && col in t.names && AnyContains(Strs(Column(t, col)), d)
    requires PartBase(col, 0) in t.names
    ensures !DistinctNames(LegacySplitTable(t, col, d).names)
  {
    var j := IndexOf(t.names, col);
    var strs := Strs(t.cols[j]);
    var m := MaxPieces(strs, d);
    var p := PartBase(col, 0);
    var k :| 0 <= k < |t.names| && t.names[k] == p;
    assert |p| > |col|;
    assert k != j;
    var names := LegacySplitTable(t, col, d).names;
    assert names[j] == p;
    if k < j {
      assert names[k] == p;
    } else {
      assert names[k + m - 1] == t.names[k];
    }
  }

  /** The input that shows it: columns `a` and `a_part1`, one row whose `a`
      is "x y", split on a space. */
  lemma LegacySplitExample()
    ensures var t := Table(["a", "a_part1"], [[Text("x y")], [Text("z")]], 1);
            t.Valid() && !DistinctNames(LegacySplitTable(t, "a", " ").names)
            && DistinctNames(DelimiterReply(t, "a", " ").table.names)
  {
    var t := Table(["a", "a_part1"], [[Text("x y")], [Text("z")]], 1);
    assert IndexOf(t.names, "a") == 0;
    assert Column(t, "a") == [Text("x y")];
    assert Strs(Column(t, "a")) == ["x y"];
    assert OccursAt("x y", " ", 1) by { assert "x y"[1..2] == " "; }
    assert Contains("x y", " ");
    assert Strs(Column(t, "a"))[0] == "x y";
    assert AnyContains(Strs(Column(t, "a")), " ");
    assert PartBase("a", 0) == "a_part1" by { assert NatToString(1) == "1"; }
    assert "a" != "a_part1";
    LegacySplitRepeatsNames(t, "a", " ");
    DelimiterReplySpec(t, "a", " ");
  }

  // ------------------------------------------------------------ the window

  /** The cells of `dataframe[col].astype(str).apply(f)`. */
  function AsStrApply(col: seq<Cell>, f: Cell -> string): (r: seq<Cell>)
    ensures |r| == |col| && forall i :: 0 <= i < |col| ==> r[i] == Text(f(Text(Str(col[i]))))
  {
    MapCells(col, c => Text(f(Text(Str(c)))))
  }

  class ExcelEditorApp {
    var currentLang: string
    var dataframe: Option<Table>
    var columnValues: seq<string>
    var selectedColumn: string

    /** A new window starts in English with no table and nothing selected. */
    constructor ()
      ensures currentLang == "en" && dataframe == None && columnValues == [] && selectedColumn == ""
    {
      currentLang := "en";
      dataframe := None;
      columnValues := [];
      selectedColumn := "";
    }

    /** `toggle_language`: only the language changes (relabelling the
        widgets is not modelled). */
    method ToggleLanguage()
      modifies this
      ensures currentLang == Toggled(old(currentLang))
      ensures dataframe == old(dataframe) && columnValues == old(columnValues) && selectedColumn == old(selectedColumn)
    {
      currentLang := if currentLang == "en" then "tr" else "en";
    }

    /** `split_surname_operation(col)`: a missing column is reported and
        nothing changes; otherwise `col` holds the name parts and the
        surnames go into a new column right after it. */
    method SplitSurnameOperation(col: string) returns (kind: StatusKind)
      requires dataframe.Some? && dataframe.value.Valid()
      modifies this
      ensures col !in old(dataframe).value.names ==> kind == Error && dataframe == old(dataframe)
      ensures col in old(dataframe).value.names ==>
                kind == Success && dataframe == Some(SurnameReply(old(dataframe).value, col).table)
      ensures currentLang == old(currentLang) && columnValues == old(columnValues) && selectedColumn == old(selectedColumn)
    {
      var t := dataframe.value;
      if col !in t.names {
        return Error;
      }
      var name := FreshName(col + "_Surname", t.names);
      var j := IndexOf(t.names, col);
      var named := SetColumn(t, col, NameParts(t.cols[j]));
      dataframe := Some(InsertColumn(named, j + 1, name, Surnames(t.cols[j])));
      kind := Success;
    }

    /** `split_column_operation(col, delimiter)`: Error for a missing
        column and Warning when no row contains the delimiter, both leaving
        the table alone; otherwise the table becomes the older split. */
    method SplitColumnOperation(col: string, d: string) returns (kind: StatusKind)
      requires dataframe.Some? && dataframe.value.Valid() && |d| == 1
      modifies this
      ensures col !in old(dataframe).value.names ==> kind == Error && dataframe == old(dataframe)
      ensures col in old(dataframe).value.names && !AnyContains(Strs(Column(old(dataframe).value, col)), d) ==>
                kind == Warning && dataframe == old(dataframe)
      ensures col in old(dataframe).value.names && AnyContains(Strs(Column(old(dataframe).value, col)), d) ==>
                kind == Success && dataframe == Some(LegacySplitTable(old(dataframe).value, col, d))
      ensures currentLang == old(currentLang) && columnValues == old(columnValues) && selectedColumn == old(selectedColumn)
    {
      var t := dataframe.value;
      if col !in t.names {
        return Error;
      }
      var j := IndexOf(t.names, col);
      var strs := Strs(t.cols[j]);
      if !AnyContains(strs, d) {
        return Warning;
      }
      var m := MaxPieces(strs, d);
      var parts: seq<string> := [];
      for i := 0 to m
        invariant parts == PlainPartNames(col, i)
      {
        parts := parts + [PartBase(col, i)];
      }
      dataframe := Some(Table(t.names[..j] + parts + t.names[j + 1..], t.cols[..j] + PartColumns(strs, d, m) + t.cols[j + 1..], t.rows));
      kind := Success;
    }

    /** What `split_column_operation` leaves behind for a delimiter `d`:
        an error or a warning with the table kept, or the older split. */
    static ghost predicate SplitOutcome(t: Table, col: string, d: string, kind: StatusKind, after: Option<Table>)
      requires t.Valid() && |d| == 1
    {
      (col !in t.names ==> kind == Error && after == Some(t))
      && (col in t.names && !AnyContains(Strs(Column(t, col)), d) ==> kind == Warning && after == Some(t))
      && (col in t.names && AnyContains(Strs(Column(t, col)), d) ==> kind == Success && after == Some(LegacySplitTable(t, col, d)))
    }

    /** Whether `apply_operation` reaches the column chooser refresh: a
        table, a column and one of the five known operations, and no
        KeyError from masking or trimming a missing column. */
    static ghost predicate Refreshes(t: Option<Table>, col: string, key: Outcome<Option<string>>)
    {
      t.Some? && col != "" && key.Returned? && key.value.Some?
      && key.value.value in {"op_mask", "op_trim", "op_split_space", "op_split_colon", "op_split_surname"}
      && !(key.value.value in {"op_mask", "op_trim"} && col !in t.value.names)
    }

    /** `apply_operation` with the translations `texts`: the chosen
        operation on the selected column, then the column chooser re-read,
        keeping `col` selected when it is still a column. Without a table,
        a column or a known operation only a warning is shown; a missing
        column in masking or trimming raises a KeyError that is reported
        as an error, and nothing changes. */
    method ApplyOperation(opText: string, texts: map<string, string>) returns (kind: StatusKind)
      requires forall i :: 0 <= i < |OperationKeys| ==> OperationKeys[i] in texts
      requires dataframe.Some? ==> dataframe.value.Valid()
      modifies this
      ensures var key := App.FirstKey(OperationKeys, texts, opText);
              (old(dataframe).None? || old(selectedColumn) == "" || key == Returned(None)) ==>
                kind == Warning && dataframe == old(dataframe)
      ensures var key := App.FirstKey(OperationKeys, texts, opText);
              old(dataframe).Some? && old(selectedColumn) != "" && key == Returned(Some("op_mask")) ==>
                var t := old(dataframe).value;
                var col := old(selectedColumn);
                (col !in t.names ==> kind == Error && dataframe == old(dataframe))
                && (col in t.names ==> kind == Success && dataframe == Some(SetColumn(t, col, AsStrApply(Column(t, col), LegacyMaskData))))
      ensures var key := App.FirstKey(OperationKeys, texts, opText);
              old(dataframe).Some? && old(selectedColumn) != "" && key == Returned(Some("op_trim")) ==>
                var t := old(dataframe).value;
                var col := old(selectedColumn);
                (col !in t.names ==> kind == Error && dataframe == old(dataframe))
                && (col in t.names ==> kind == Success && dataframe == Some(SetColumn(t, col, AsStrApply(Column(t, col), TrimSpaces))))
      ensures var key := App.FirstKey(OperationKeys, texts, opText);
              old(dataframe).Some? && old(selectedColumn) != "" && key == Returned(Some("op_split_space")) ==>
                SplitOutcome(old(dataframe).value, old(selectedColumn), " ", kind, dataframe)
      ensures var key := App.FirstKey(OperationKeys, texts, opText);
              old(dataframe).Some? && old(selectedColumn) != "" && key == Returned(Some("op_split_colon")) ==>
                SplitOutcome(old(dataframe).value, old(selectedColumn), ":", kind, dataframe)
      ensures var key := App.FirstKey(OperationKeys, texts, opText);
              old(dataframe).Some? && old(selectedColumn) != "" && key == Returned(Some("op_split_surname")) ==>
                var t := old(dataframe).value;
                var col := old(selectedColumn);
                (col !in t.names ==> kind == Error && dataframe == old(dataframe))
                && (col in t.names ==> kind == Success && dataframe == Some(SurnameReply(t, col).table))
      ensures var key := App.FirstKey(OperationKeys, texts, opText);
              Refreshes(old(dataframe), old(selectedColumn), key) ==>
                var col := old(selectedColumn);
                dataframe.Some? && columnValues == dataframe.value.names
                && (col in dataframe.value.names ==> selectedColumn == col)
                && (col !in dataframe.value.names && App.AnyTruthy(dataframe.value.names) ==>
                      selectedColumn == dataframe.value.names[0])
                && (col !in dataframe.value.names && !App.AnyTruthy(dataframe.value.names) ==> selectedColumn == "")
      ensures var key := App.FirstKey(OperationKeys, texts, opText);
              !Refreshes(old(dataframe), old(selectedColumn), key) ==>
                columnValues == old(columnValues) && selectedColumn == old(selectedColumn)
      ensures currentLang == old(currentLang)
    {
      if dataframe.None? {
        return Warning;
      }
      var col := selectedColumn;
      var key := App.GetOperationKey(OperationKeys, texts, opText);
      App.FirstKeySpec(OperationKeys, texts, opText);
      if col == "" || key == Returned(None) {
        return Warning;
      }
      var t := dataframe.value;
      var k := key.value.value;
      if k == "op_mask" || k == "op_trim" {
        if col !in t.names {
          return Error;
        }
        var f := if k == "op_mask" then LegacyMaskData else TrimSpaces;
        dataframe := Some(SetColumn(t, col, AsStrApply(Column(t, col), f)));
        kind := Success;
      } else if k == "op_split_space" {
        kind := SplitColumnOperation(col, " ");
      } else if k == "op_split_colon" {
        kind := SplitColumnOperation(col, ":");
      } else if k == "op_split_surname" {
        kind := SplitSurnameOperation(col);
      } else {
        return Warning;
      }
      var r := dataframe.value;
      columnValues := r.names;
      if col in r.names {
        selectedColumn := col;
      } else if exists i :: 0 <= i < |r.names| && r.names[i] != "" {
        selectedColumn := r.names[0];
      } else {
        selectedColumn := "";
      }
    }
  }
}
