/** Column arithmetic (src/operations/numeric_operations.py): rounding, a
    calculation with a constant, and a new column computed from two
    columns. Values are coerced with `pd.to_numeric(errors='coerce')`;
    cells whose text equals the column name are skipped. The number
    semantics themselves (rounding, `str` of a float) are parameters. */
module NumericOperations {
  import opened PyStr
  import opened Cells
  import opened Tables

  /** The four operators; division by zero has no finite result (pandas
      gives inf or NaN, which becomes missing). */
  function BinOp(op: string, a: real, b: real): (r: Option<real>)
    requires op in {"+", "-", "*", "/"}
    ensures op == "/" && b == 0.0 ==> r.None?
    ensures op != "/" || b != 0.0 ==> r.Some?
  {
    if op == "+" then Some(a + b)
    else if op == "-" then Some(a - b)
    else if op == "*" then Some(a * b)
    else if b == 0.0 then None
    else Some(a / b)
  }

  /** Whether a cell is skipped: the header guard, when the operation has
      one. */
  predicate Skipped(c: Cell, col: string, guard: bool)
  {
    guard && IsHeader(c, col)
  }

  /** Every cell is skipped (true for an empty column). */
  predicate AllSkipped(cells: seq<Cell>, col: string, guard: bool)
  {
    forall i :: 0 <= i < |cells| ==> Skipped(cells[i], col, guard)
  }

  /** No cell that is processed coerces to a number. */
  predicate NoNumber(ns: NumberSemantics, cells: seq<Cell>, col: string, guard: bool)
  {
    forall i :: 0 <= i < |cells| && !Skipped(cells[i], col, guard) ==> ToNumeric(ns, cells[i]).None?
  }

  /** The new value of a processed cell: missing when it is not a number,
      otherwise `f` of its number. */
  function Processed(ns: NumberSemantics, c: Cell, f: real -> Option<real>): Cell
  {
    match ToNumeric(ns, c)
    case None => Missing
    case Some(x) => NumCell(ns, f(x))
  }

  /** `new_df.loc[~skip_mask, col] = ...`: processed cells get their new
      value, skipped cells stay. */
  function Updated(ns: NumberSemantics, cells: seq<Cell>, col: string, guard: bool, f: real -> Option<real>): (r: seq<Cell>)
    ensures |r| == |cells|
    ensures forall i :: 0 <= i < |cells| ==>
              r[i] == if Skipped(cells[i], col, guard) then cells[i] else Processed(ns, cells[i], f)
  {
    seq(|cells|, i requires 0 <= i < |cells| =>
          if Skipped(cells[i], col, guard) then cells[i] else Processed(ns, cells[i], f))
  }

  function Rounder(ns: NumberSemantics, decimals: int): real -> Option<real>
  {
    x => Some(ns.round(x, decimals))
  }

  function AllSkippedNote(): string { " (all rows matched column name and were skipped)" }
  function NonSkippedNote(): string { " (for non-skipped rows)" }

  /** `apply_round_numbers(dataframe, col, decimals, texts)`. */
  function RoundNumbers(t: Table, col: string, decimals: int, ns: NumberSemantics): Reply
    requires t.Valid()
  {
    if col !in t.names then Reply(t, Error, Msg("column_not_found", [col]))
    else
      var cells := Column(t, col);
      var ok := Msg("rounding_success", [col, IntToString(decimals)]);
      if AllSkipped(cells, col, true) then Reply(t, Success, WithNote(ok, AllSkippedNote()))
      else if NoNumber(ns, cells, col, true) then Reply(t, Warning, WithNote(Msg("column_not_numeric", [col]), NonSkippedNote()))
      else Reply(SetColumn(t, col, Updated(ns, cells, col, true, Rounder(ns, decimals))), Success, ok)
  }

  /** `apply_calculate_column_constant(dataframe, col, operation, value, texts)`. */
  function CalculateConstant(t: Table, col: string, op: string, value: real, ns: NumberSemantics): Reply
    requires t.Valid()
  {
    if col !in t.names then Reply(t, Error, Msg("column_not_found", [col]))
    else
      var cells := Column(t, col);
      var ok := Msg("calculation_success", [col]);
      if AllSkipped(cells, col, true) then Reply(t, Success, WithNote(ok, AllSkippedNote()))
      else if NoNumber(ns, cells, col, true) then Reply(t, Warning, WithNote(Msg("column_not_numeric", [col]), NonSkippedNote()))
      else if op !in {"+", "-", "*", "/"} then Reply(t, Error, Plain("Unknown operation: " + op))
      else if op == "/" && value == 0.0 then Reply(t, Error, Msg("division_by_zero", [col]))
      else Reply(SetColumn(t, col, Updated(ns, cells, col, true, x => BinOp(op, x, value))), Success, ok)
  }

  /** Property shared by the results of rounding and of the constant
      calculation: only `col` changes, skipped cells keep their value, and
      every processed cell is missing or the number `f` gives for it. */
  predicate UpdatedBy(ns: NumberSemantics, t: Table, r: Table, col: string, guard: bool, f: real -> Option<real>)
    requires t.Valid() && col in t.names
  {
    r.Valid() && OnlyColumnChanged(t, r, col)
    && var before := Column(t, col);
       var after := Column(r, col);
       forall i :: 0 <= i < t.rows ==>
         if Skipped(before[i], col, guard) then after[i] == before[i]
         else
           match ToNumeric(ns, before[i])
           case None => after[i] == Missing
           case Some(x) => after[i] == NumCell(ns, f(x))
  }

  lemma UpdateSpec(ns: NumberSemantics, t: Table, col: string, guard: bool, f: real -> Option<real>)
    requires t.Valid() && col in t.names
    ensures UpdatedBy(ns, t, SetColumn(t, col, Updated(ns, Column(t, col), col, guard, f)), col, guard, f)
  {
    var r := SetColumn(t, col, Updated(ns, Column(t, col), col, guard, f));
    assert r.names == t.names;
    assert Column(r, col) == Updated(ns, Column(t, col), col, guard, f);
  }

  /** Rounding: a missing column is an error; a column of header-like cells
      (or no rows) succeeds unchanged; one with no number outside the
      header-like cells is a warning, unchanged; otherwise every other cell
      is rounded or becomes missing, and nothing else changes. */
  lemma RoundNumbersSpec(t: Table, col: string, decimals: int, ns: NumberSemantics)
    requires t.Valid()
    ensures var r := RoundNumbers(t, col, decimals, ns);
            (col !in t.names ==> r == Reply(t, Error, Msg("column_not_found", [col])))
            && (col in t.names && AllSkipped(Column(t, col), col, true) ==> r.kind == Success && r.table == t)
            && (col in t.names && !AllSkipped(Column(t, col), col, true) && NoNumber(ns, Column(t, col), col, true) ==>
                    r == Reply(t, Warning, WithNote(Msg("column_not_numeric", [col]), NonSkippedNote())))
            && (col in t.names && !NoNumber(ns, Column(t, col), col, true) ==>
                    r.kind == Success && UpdatedBy(ns, t, r.table, col, true, Rounder(ns, decimals)))
  {
    if col in t.names && !NoNumber(ns, Column(t, col), col, true) {
      UpdateSpec(ns, t, col, true, Rounder(ns, decimals));
    }
  }

  /** The constant calculation: the same outcomes as rounding, and in
      addition an unknown operator and division by 0 are errors with the
      table unchanged; both are checked only after the warning. */
  lemma CalculateConstantSpec(t: Table, col: string, op: string, value: real, ns: NumberSemantics)
    requires t.Valid()
    ensures var r := CalculateConstant(t, col, op, value, ns);
            (col !in t.names ==> r == Reply(t, Error, Msg("column_not_found", [col])))
            && (col in t.names && AllSkipped(Column(t, col), col, true) ==> r.kind == Success && r.table == t)
            && (col in t.names && !AllSkipped(Column(t, col), col, true) && NoNumber(ns, Column(t, col), col, true) ==>
                    r == Reply(t, Warning, WithNote(Msg("column_not_numeric", [col]), NonSkippedNote())))
            && (col in t.names && !NoNumber(ns, Column(t, col), col, true) ==>
                  (op !in {"+", "-", "*", "/"} ==> r == Reply(t, Error, Plain("Unknown operation: " + op)))
                  && (op == "/" && value == 0.0 ==> r == Reply(t, Error, Msg("division_by_zero", [col])))
                  && (op in {"+", "-", "*", "/"} && !(op == "/" && value == 0.0) ==>
                        r.kind == Success && UpdatedBy(ns, t, r.table, col, true, x => BinOp(op, x, value))))
  {
    if col in t.names && !NoNumber(ns, Column(t, col), col, true) && op in {"+", "-", "*", "/"} && !(op == "/" && value == 0.0) {
      UpdateSpec(ns, t, col, true, x => BinOp(op, x, value));
    }
  }

  /** A header-like cell is never changed, whatever the outcome. */
  lemma HeadersUntouched(t: Table, col: string, op: string, value: real, decimals: int, ns: NumberSemantics, i: nat)
    requires t.Valid() && col in t.names && i < t.rows && IsHeader(Column(t, col)[i], col)
    ensures Column(RoundNumbers(t, col, decimals, ns).table, col)[i] == Column(t, col)[i]
    ensures Column(CalculateConstant(t, col, op, value, ns).table, col)[i] == Column(t, col)[i]
  {
    RoundNumbersSpec(t, col, decimals, ns);
    CalculateConstantSpec(t, col, op, value, ns);
  }

  // ------------------------------------------------- two-column calculation

  /** The coerced numbers of a column. */
  function Numbers(ns: NumberSemantics, cells: seq<Cell>): (n: seq<Option<real>>)
    ensures |n| == |cells| && forall i :: 0 <= i < |cells| ==> n[i] == ToNumeric(ns, cells[i])
  {
    seq(|cells|, i requires 0 <= i < |cells| => ToNumeric(ns, cells[i]))
  }

  predicate AllNone(n: seq<Option<real>>)
  {
    forall i :: 0 <= i < |n| ==> n[i].None?
  }

  /** Row-wise `a op b`; missing when either operand is. */
  function Combined(op: string, n1: seq<Option<real>>, n2: seq<Option<real>>): (r: seq<Option<real>>)
    requires op in {"+", "-", "*", "/"} && |n1| == |n2|
    ensures |r| == |n1| && forall i :: 0 <= i < |n1| ==>
              r[i] == if n1[i].Some? && n2[i].Some? then BinOp(op, n1[i].value, n2[i].value) else None
  {
    seq(|n1|, i requires 0 <= i < |n1| =>
          if n1[i].Some? && n2[i].Some? then BinOp(op, n1[i].value, n2[i].value) else None)
  }

  /** `result_col.round(max_decimals)` when some decimals were found and some
      result is a number. */
  function RoundedTo(ns: NumberSemantics, r: seq<Option<real>>, places: nat): (q: seq<Option<real>>)
    ensures |q| == |r|
    ensures places == 0 || AllNone(r) ==> q == r
    ensures places > 0 && !AllNone(r) ==>
              forall i :: 0 <= i < |r| ==> q[i] == if r[i].Some? then Some(ns.round(r[i].value, places)) else None
  {
    if places > 0 && !AllNone(r) then
      seq(|r|, i requires 0 <= i < |r| => if r[i].Some? then Some(ns.round(r[i].value, places)) else None)
    else r
  }

  function NumCells(ns: NumberSemantics, v: seq<Option<real>>): (c: seq<Cell>)
    ensures |c| == |v| && forall i :: 0 <= i < |v| ==> c[i] == NumCell(ns, v[i])
  {
    seq(|v|, i requires 0 <= i < |v| => NumCell(ns, v[i]))
  }

  function Max(a: nat, b: nat): nat { if a < b then b else a }

  /** `apply_create_calculated_column(dataframe, col1, col2, operation,
      new_col_name, texts)`; `places` is `get_decimal_places` of a coerced
      column. */
  function CreateCalculatedColumn(t: Table, col1: string, col2: string, op: string, newName: string,
                                  ns: NumberSemantics, places: seq<Option<real>> -> nat): Reply
    requires t.Valid()
  {
    if col1 !in t.names then Reply(t, Error, Msg("column_not_found", [col1]))
    else if col2 !in t.names then Reply(t, Error, Msg("column_not_found", [col2]))
    else if newName in t.names then Reply(t, Error, Msg("column_already_exists", [newName]))
    else
      var n1 := Numbers(ns, Column(t, col1));
      var n2 := Numbers(ns, Column(t, col2));
      if AllNone(n1) then Reply(t, Warning, Msg("column_not_numeric", [col1]))
      else if AllNone(n2) then Reply(t, Warning, Msg("column_not_numeric", [col2]))
      else if op !in {"+", "-", "*", "/"} then Reply(t, Error, Plain("Unknown operation: " + op))
      else
        var result := RoundedTo(ns, Combined(op, n1, n2), Max(places(n1), places(n2)));
        Reply(SetColumn(t, newName, NumCells(ns, result)), Success,
              Msg("create_column_success", [newName, col1, col2]))
  }

  /** Checks in order: first column missing, second missing, name taken,
      first not numeric, second not numeric, unknown operator. On success
      exactly one column is appended, holding for every row the result for
      that row's two numbers (missing when either is missing or when
      dividing by 0), rounded when the operands have decimals. */
  lemma CreateCalculatedColumnSpec(t: Table, col1: string, col2: string, op: string, newName: string,
                                   ns: NumberSemantics, places: seq<Option<real>> -> nat)
    requires t.Valid()
    ensures var r := CreateCalculatedColumn(t, col1, col2, op, newName, ns, places);
            (col1 !in t.names ==> r == Reply(t, Error, Msg("column_not_found", [col1])))
            && (col1 in t.names && col2 !in t.names ==> r == Reply(t, Error, Msg("column_not_found", [col2])))
            && (col1 in t.names && col2 in t.names && newName in t.names ==> r == Reply(t, Error, Msg("column_already_exists", [newName])))
            && (col1 in t.names && col2 in t.names && newName !in t.names ==>
                  var n1 := Numbers(ns, Column(t, col1));
                  var n2 := Numbers(ns, Column(t, col2));
                  (AllNone(n1) ==> r == Reply(t, Warning, Msg("column_not_numeric", [col1])))
                  && (!AllNone(n1) && AllNone(n2) ==> r == Reply(t, Warning, Msg("column_not_numeric", [col2])))
                  && (!AllNone(n1) && !AllNone(n2) && op !in {"+", "-", "*", "/"} ==> r == Reply(t, Error, Plain("Unknown operation: " + op)))
                  && (!AllNone(n1) && !AllNone(n2) && op in {"+", "-", "*", "/"} ==>
                        var d := Max(places(n1), places(n2));
                        r.kind == Success && r.table.names == t.names + [newName] && r.table.cols[..|t.cols|] == t.cols
                        && r.table.rows == t.rows
                        && forall i :: 0 <= i < t.rows ==>
                             var v := if n1[i].Some? && n2[i].Some? then BinOp(op, n1[i].value, n2[i].value) else None;
                             Column(r.table, newName)[i] == NumCell(ns, RoundedTo(ns, Combined(op, n1, n2), d)[i])
                             && (v.None? ==> Column(r.table, newName)[i] == Missing)
                             && (d == 0 ==> Column(r.table, newName)[i] == NumCell(ns, v))))
  {
    if col1 in t.names && col2 in t.names && newName !in t.names {
      var n1 := Numbers(ns, Column(t, col1));
      var n2 := Numbers(ns, Column(t, col2));
      if !AllNone(n1) && !AllNone(n2) && op in {"+", "-", "*", "/"} {
        var d := Max(places(n1), places(n2));
        SetColumnSpec(t, newName, NumCells(ns, RoundedTo(ns, Combined(op, n1, n2), d)));
      }
    }
  }

  /** Dividing by a zero cell gives a missing cell. */
  lemma DivisionByZeroCellIsMissing(t: Table, col1: string, col2: string, newName: string,
                                    ns: NumberSemantics, places: seq<Option<real>> -> nat, i: nat)
    requires t.Valid() && col1 in t.names && col2 in t.names && newName !in t.names && i < t.rows
    requires !AllNone(Numbers(ns, Column(t, col1))) && ToNumeric(ns, Column(t, col2)[i]) == Some(0.0)
    ensures var r := CreateCalculatedColumn(t, col1, col2, "/", newName, ns, places);
            r.kind == Success && Column(r.table, newName)[i] == Missing
  {
    var n2 := Numbers(ns, Column(t, col2));
    assert n2[i].Some?;
    CreateCalculatedColumnSpec(t, col1, col2, "/", newName, ns, places);
  }
}
