/** The older column arithmetic (operations/numeric_operations.py): the
    same operations with no header guard, the whole column replaced, and no
    rounding of a two-column result. */
module LegacyNumericOperations {
  import opened PyStr
  import opened Cells
  import opened Tables
  import opened NumericOperations

  /** `apply_round_numbers(dataframe, col, decimals, texts)`. */
  function RoundNumbers(t: Table, col: string, decimals: int, ns: NumberSemantics): Reply
    requires t.Valid()
  {
    if col !in t.names then Reply(t, Error, Msg("column_not_found", [col]))
    else
      var cells := Column(t, col);
      if NoNumber(ns, cells, col, false) then Reply(t, Warning, Msg("column_not_numeric", [col]))
      else Reply(SetColumn(t, col, Updated(ns, cells, col, false, Rounder(ns, decimals))), Success,
                 Msg("rounding_success", [col, IntToString(decimals)]))
  }

  /** `apply_calculate_column_constant(dataframe, col, operation, value, texts)`. */
  function CalculateConstant(t: Table, col: string, op: string, value: real, ns: NumberSemantics): Reply
    requires t.Valid()
  {
    if col !in t.names then Reply(t, Error, Msg("column_not_found", [col]))
    else
      var cells := Column(t, col);
      if NoNumber(ns, cells, col, false) then Reply(t, Warning, Msg("column_not_numeric", [col]))
      else if op !in {"+", "-", "*", "/"} then Reply(t, Error, Plain("Unknown operation: " + op))
      else if op == "/" && value == 0.0 then Reply(t, Error, Msg("division_by_zero", [col]))
      else Reply(SetColumn(t, col, Updated(ns, cells, col, false, x => BinOp(op, x, value))), Success,
                 Msg("calculation_success", [col]))
  }

  /** `apply_create_calculated_column`: the newer version with no decimal
      places found, so the result is never rounded. */
  function CreateCalculatedColumn(t: Table, col1: string, col2: string, op: string, newName: string, ns: NumberSemantics): Reply
    requires t.Valid()
  {
    NumericOperations.CreateCalculatedColumn(t, col1, col2, op, newName, ns, _ => 0)
  }

  /** A missing column is an error; a column with no number at all (or no
      rows) is a warning with the table unchanged; otherwise every cell of
      the column, header-like or not, is replaced by its rounded number or
      missing, and nothing else changes. */
  lemma RoundNumbersSpec(t: Table, col: string, decimals: int, ns: NumberSemantics)
    requires t.Valid()
    ensures var r := RoundNumbers(t, col, decimals, ns);
            (col !in t.names ==> r == Reply(t, Error, Msg("column_not_found", [col])))
            && (col in t.names && NoNumber(ns, Column(t, col), col, false) ==>
                    r == Reply(t, Warning, Msg("column_not_numeric", [col])))
            && (col in t.names && !NoNumber(ns, Column(t, col), col, false) ==>
                    r.kind == Success && UpdatedBy(ns, t, r.table, col, false, Rounder(ns, decimals)))
  {
    if col in t.names && !NoNumber(ns, Column(t, col), col, false) {
      UpdateSpec(ns, t, col, false, Rounder(ns, decimals));
    }
  }

  /** The same outcomes, plus the errors for an unknown operator and for
      division by 0, checked after the warning. */
  lemma CalculateConstantSpec(t: Table, col: string, op: string, value: real, ns: NumberSemantics)
    requires t.Valid()
    ensures var r := CalculateConstant(t, col, op, value, ns);
            (col !in t.names ==> r == Reply(t, Error, Msg("column_not_found", [col])))
            && (col in t.names && NoNumber(ns, Column(t, col), col, false) ==>
                    r == Reply(t, Warning, Msg("column_not_numeric", [col])))
            && (col in t.names && !NoNumber(ns, Column(t, col), col, false) ==>
                  (op !in {"+", "-", "*", "/"} ==> r == Reply(t, Error, Plain("Unknown operation: " + op)))
                  && (op == "/" && value == 0.0 ==> r == Reply(t, Error, Msg("division_by_zero", [col])))
                  && (op in {"+", "-", "*", "/"} && !(op == "/" && value == 0.0) ==>
                        r.kind == Success && UpdatedBy(ns, t, r.table, col, false, x => BinOp(op, x, value))))
  {
    if col in t.names && !NoNumber(ns, Column(t, col), col, false) && op in {"+", "-", "*", "/"} && !(op == "/" && value == 0.0) {
      UpdateSpec(ns, t, col, false, x => BinOp(op, x, value));
    }
  }

  /** The same outcomes as the newer version, holding the unrounded result
      for each row. */
  lemma CreateCalculatedColumnSpec(t: Table, col1: string, col2: string, op: string, newName: string, ns: NumberSemantics, i: nat)
    requires t.Valid() && col1 in t.names && col2 in t.names && newName !in t.names && i < t.rows
    requires op in {"+", "-", "*", "/"}
    requires !AllNone(Numbers(ns, Column(t, col1))) && !AllNone(Numbers(ns, Column(t, col2)))
    ensures var r := CreateCalculatedColumn(t, col1, col2, op, newName, ns);
            var a := ToNumeric(ns, Column(t, col1)[i]);
            var b := ToNumeric(ns, Column(t, col2)[i]);
            r.kind == Success && r.table.names == t.names + [newName] && r.table.cols[..|t.cols|] == t.cols
            && Column(r.table, newName)[i] == NumCell(ns, if a.Some? && b.Some? then BinOp(op, a.value, b.value) else None)
  {
    NumericOperations.CreateCalculatedColumnSpec(t, col1, col2, op, newName, ns, _ => 0);
  }

  /** When no cell is header-like and the column holds a number, the older
      and the newer versions agree; a header-like cell is where they part. */
  lemma AgreesWithoutHeaders(t: Table, col: string, op: string, value: real, decimals: int, ns: NumberSemantics)
    requires t.Valid() && col in t.names
    requires forall i :: 0 <= i < t.rows ==> !IsHeader(Column(t, col)[i], col)
    requires !NoNumber(ns, Column(t, col), col, false)
    ensures RoundNumbers(t, col, decimals, ns) == NumericOperations.RoundNumbers(t, col, decimals, ns)
    ensures CalculateConstant(t, col, op, value, ns) == NumericOperations.CalculateConstant(t, col, op, value, ns)
  {
    var cells := Column(t, col);
    assert !AllSkipped(cells, col, true) by {
      var i :| 0 <= i < |cells| && !Skipped(cells[i], col, false) && ToNumeric(ns, cells[i]).Some?;
    }
    assert !NoNumber(ns, cells, col, true);
    assert Updated(ns, cells, col, false, Rounder(ns, decimals)) == Updated(ns, cells, col, true, Rounder(ns, decimals));
    if op in {"+", "-", "*", "/"} {
      var f := x => BinOp(op, x, value);
      assert Updated(ns, cells, col, false, f) == Updated(ns, cells, col, true, f);
    }
  }

  /** A header-like cell holding no number: the older version coerces it to
      missing, the newer leaves it. */
  lemma HeaderExample(ns: NumberSemantics)
    requires ns.textToNumber("a") == None
    ensures var t := Table(["a"], [[Text("a"), Int(2)]], 2);
            Column(RoundNumbers(t, "a", 0, ns).table, "a")[0] == Missing
            && Column(NumericOperations.RoundNumbers(t, "a", 0, ns).table, "a")[0] == Text("a")
  {
    var t := Table(["a"], [[Text("a"), Int(2)]], 2);
    assert Column(t, "a") == [Text("a"), Int(2)];
    assert Column(RoundNumbers(t, "a", 0, ns).table, "a")[0] == Missing by {
      RoundNumbersSpec(t, "a", 0, ns);
      assert ToNumeric(ns, Column(t, "a")[1]).Some?;
    }
    assert Column(NumericOperations.RoundNumbers(t, "a", 0, ns).table, "a")[0] == Text("a") by {
      NumericOperations.RoundNumbersSpec(t, "a", 0, ns);
    }
  }
}
