/** Preview dispatch (src/operations/preview_utils.py): one column
    operation applied to a copy of the preview frame, with the rows to
    highlight recorded in the copy's side map. */
module PreviewUtils {
  import opened PyStr
  import opened Cells
  import opened Tables
  import opened OperationRegistry

  /** The `{'type', 'key', 'column'}` operation record. */
  datatype Operation = Operation(opType: string, key: string, column: string)

  function NoColumn(col: string): Exc
  {
    KeyError("'" + col + "'")
  }

  /** `df[column] = df[column].astype(str).apply(g)`. */
  function Assign(f: Frame, col: string, g: Cell -> Outcome<Cell>): Outcome<Frame>
    requires f.table.Valid()
  {
    if col !in f.table.names then Raised(NoColumn(col))
    else match MapOutcome(AsStr(Column(f.table, col)), g)
      case Raised(e) => Raised(e)
      case Returned(vs) => Returned(Frame(SetColumn(f.table, col, vs), f.styled))
  }

  /** `orig != df[column]`, row by row. */
  function Changed(orig: seq<Cell>, now: seq<Cell>): (m: seq<bool>)
    requires |orig| == |now|
    ensures |m| == |orig| && forall i :: 0 <= i < |orig| ==> (m[i] <==> orig[i] != now[i])
  {
    seq(|orig|, i requires 0 <= i < |orig| => orig[i] != now[i])
  }

  /** The same, recording in the side map which rows changed. */
  function AssignTracked(f: Frame, col: string, g: Cell -> Outcome<Cell>): Outcome<Frame>
    requires f.table.Valid()
  {
    if col !in f.table.names then Raised(NoColumn(col))
    else
      var orig := AsStr(Column(f.table, col));
      match MapOutcome(orig, g)
      case Raised(e) => Raised(e)
      case Returned(vs) => Returned(Frame(SetColumn(f.table, col, vs), f.styled[col := Changed(orig, vs)]))
  }

  /** `x[0] if isinstance(x, tuple) else x` */
  function Unpaired(vs: seq<Cell>): (r: seq<Cell>)
    ensures |r| == |vs| && forall i :: 0 <= i < |vs| ==> r[i] == if vs[i].Pair? then vs[i].first else vs[i]
  {
    seq(|vs|, i requires 0 <= i < |vs| => if vs[i].Pair? then vs[i].first else vs[i])
  }

  /** `isinstance(x, tuple) and not x[1]` */
  function InvalidMask(vs: seq<Cell>): (m: seq<bool>)
    ensures |m| == |vs| && forall i :: 0 <= i < |vs| ==> (m[i] <==> vs[i].Pair? && !vs[i].flag)
  {
    seq(|vs|, i requires 0 <= i < |vs| => vs[i].Pair? && !vs[i].flag)
  }

  /** The `op_mask_email` branch. */
  function AssignEmailMask(f: Frame, col: string, reg: Registry): Outcome<Frame>
    requires f.table.Valid()
  {
    if col !in f.table.names then Raised(NoColumn(col))
    else match MapOutcome(AsStr(Column(f.table, col)), x => reg.maskEmailTracked(x, col))
      case Raised(e) => Raised(e)
      case Returned(vs) => Returned(Frame(SetColumn(f.table, col, Unpaired(vs)), f.styled[col := InvalidMask(vs)]))
  }

  predicate IsValidateKey(key: string)
  {
    |key| >= 12 && key[..12] == "op_validate_"
  }

  /** The single-column keys other than validation. */
  predicate ColumnKey(key: string)
  {
    key in {"op_mask", "op_mask_email", "op_mask_words", "op_trim", "op_upper", "op_lower", "op_title",
            "op_remove_non_numeric", "op_remove_non_alpha"}
  }

  /** The branch for one key, on the copy. */
  function Dispatch(df: Frame, key: string, col: string, reg: Registry): Outcome<Frame>
    requires df.table.Valid()
  {
    if key == "op_mask" then Assign(df, col, x => reg.mask(x, col))
    else if key == "op_mask_email" then AssignEmailMask(df, col, reg)
    else if key == "op_mask_words" then Assign(df, col, x => reg.maskWords(x, col))
    else if key == "op_trim" then AssignTracked(df, col, x => reg.trim(x, col))
    else if key == "op_upper" then Assign(df, col, x => reg.changeCase(x, "upper", col))
    else if key == "op_lower" then Assign(df, col, x => reg.changeCase(x, "lower", col))
    else if key == "op_title" then Assign(df, col, x => reg.changeCase(x, "title", col))
    else if key == "op_remove_non_numeric" then AssignTracked(df, col, x => reg.removeChars(x, "non_numeric", col))
    else if key == "op_remove_non_alpha" then AssignTracked(df, col, x => reg.removeChars(x, "non_alphabetic", col))
    else if IsValidateKey(key) then
      var r := reg.validate(df, col, Replace(key, "op_validate_", ""));
      if r.kind != Success then Raised(Exception(reg.render(r.msg))) else Returned(r.frame)
    else Returned(df)
  }

  /** `apply_operation_to_partition(df, operation_type, operation_params)`. */
  function ApplyOperationToPartition(f: Frame, op: Operation, reg: Registry): Outcome<Frame>
    requires f.table.Valid()
  {
    if op.opType != "column_operation" then Returned(f)
    else Dispatch(Copy(f), op.key, op.column, reg)
  }

  /** `generate_preview(app, op_key, selected_col, current_preview_df, PREVIEW_ROWS)`. */
  function GeneratePreview(f: Frame, key: string, col: string, reg: Registry): (Frame, bool, string)
    requires f.table.Valid()
  {
    match ApplyOperationToPartition(Copy(f), Operation("column_operation", key, col), reg)
    case Raised(e) => (f, false, e.msg)
    case Returned(p) =>
      if col in p.styled then (p, true, "Preview generated with highlighted changes")
      else (p, true, "Preview generated successfully")
  }

  // ------------------------------------------------------------ properties

  /** A frame that differs from `f` at most in column `col` and in the side
      map. */
  predicate ColumnOnly(f: Frame, r: Frame, col: string)
    requires f.table.Valid() && col in f.table.names
  {
    r.table.Valid() && OnlyColumnChanged(f.table, r.table, col)
  }

  lemma AssignSpec(f: Frame, col: string, g: Cell -> Outcome<Cell>)
    requires f.table.Valid()
    ensures col !in f.table.names ==> Assign(f, col, g) == Raised(NoColumn(col))
    ensures col in f.table.names && Assign(f, col, g).Returned? ==>
              var r := Assign(f, col, g).value;
              ColumnOnly(f, r, col) && r.styled == f.styled
              && forall i :: 0 <= i < f.table.rows ==> g(Text(Str(Column(f.table, col)[i]))) == Returned(Column(r.table, col)[i])
  {
    if col in f.table.names && Assign(f, col, g).Returned? {
      var vs := MapOutcome(AsStr(Column(f.table, col)), g).value;
      SetColumnSpec(f.table, col, vs);
    }
  }

  /** With change tracking the side map of `col` is true exactly at the rows
      whose new cell differs from the stringified original. */
  lemma AssignTrackedSpec(f: Frame, col: string, g: Cell -> Outcome<Cell>)
    requires f.table.Valid()
    ensures col !in f.table.names ==> AssignTracked(f, col, g) == Raised(NoColumn(col))
    ensures col in f.table.names && AssignTracked(f, col, g).Returned? ==>
              var r := AssignTracked(f, col, g).value;
              var orig := Column(f.table, col);
              ColumnOnly(f, r, col) && r.styled.Keys == f.styled.Keys + {col}
              && (forall c :: c in f.styled && c != col ==> r.styled[c] == f.styled[c])
              && |r.styled[col]| == f.table.rows
              && forall i :: 0 <= i < f.table.rows ==>
                   g(Text(Str(orig[i]))) == Returned(Column(r.table, col)[i])
                   && (r.styled[col][i] <==> Text(Str(orig[i])) != Column(r.table, col)[i])
  {
    if col in f.table.names && AssignTracked(f, col, g).Returned? {
      var vs := MapOutcome(AsStr(Column(f.table, col)), g).value;
      SetColumnSpec(f.table, col, vs);
    }
  }

  lemma AssignEmailMaskSpec(f: Frame, col: string, reg: Registry)
    requires f.table.Valid()
    ensures col !in f.table.names ==> AssignEmailMask(f, col, reg) == Raised(NoColumn(col))
    ensures col in f.table.names && AssignEmailMask(f, col, reg).Returned? ==>
              ColumnOnly(f, AssignEmailMask(f, col, reg).value, col)
  {
    if col in f.table.names && AssignEmailMask(f, col, reg).Returned? {
      var vs := MapOutcome(AsStr(Column(f.table, col)), x => reg.maskEmailTracked(x, col)).value;
      SetColumnSpec(f.table, col, Unpaired(vs));
    }
  }

  /** The caller's frame is returned as it is for another operation type;
      an unknown key gives a copy: the same cells and no side map. */
  lemma ApplyOperationPassThrough(f: Frame, op: Operation, reg: Registry)
    requires f.table.Valid()
    ensures op.opType != "column_operation" ==> ApplyOperationToPartition(f, op, reg) == Returned(f)
    ensures op.opType == "column_operation" && !ColumnKey(op.key) && !IsValidateKey(op.key) ==>
              ApplyOperationToPartition(f, op, reg) == Returned(Frame(f.table, map[]))
  {
  }

  /** A single-column operation that returns changes only its column (and
      the side map); a missing column raises `KeyError`. */
  lemma ColumnOperationSpec(f: Frame, key: string, col: string, reg: Registry)
    requires f.table.Valid() && ColumnKey(key)
    ensures var r := ApplyOperationToPartition(f, Operation("column_operation", key, col), reg);
            (col !in f.table.names ==> r == Raised(NoColumn(col)))
            && (col in f.table.names && r.Returned? ==> ColumnOnly(f, r.value, col))
  {
    var df := Copy(f);
    AssignSpec(df, col, x => reg.mask(x, col));
    AssignEmailMaskSpec(df, col, reg);
    AssignSpec(df, col, x => reg.maskWords(x, col));
    AssignTrackedSpec(df, col, x => reg.trim(x, col));
    AssignSpec(df, col, x => reg.changeCase(x, "upper", col));
    AssignSpec(df, col, x => reg.changeCase(x, "lower", col));
    AssignSpec(df, col, x => reg.changeCase(x, "title", col));
    AssignTrackedSpec(df, col, x => reg.removeChars(x, "non_numeric", col));
    AssignTrackedSpec(df, col, x => reg.removeChars(x, "non_alphabetic", col));
  }

  /** A validation whose status is not success raises with its message;
      otherwise the validated frame is the result. */
  lemma ValidateSpec(f: Frame, key: string, col: string, reg: Registry)
    requires f.table.Valid() && IsValidateKey(key) && !ColumnKey(key)
    ensures var r := reg.validate(Frame(f.table, map[]), col, Replace(key, "op_validate_", ""));
            var out := ApplyOperationToPartition(f, Operation("column_operation", key, col), reg);
            (r.kind != Success ==> out == Raised(Exception(reg.render(r.msg))))
            && (r.kind == Success ==> out == Returned(r.frame))
  {
  }

  /** Under the src copies: trimming succeeds on a present column, leaves a
      header-like value as its text and does not flag it, and flags exactly
      the rows that trimming changed. */
  lemma SrcTrimSpec(f: Frame, col: string, ct: CharTables, oc: ValidateInputs.OtherChecks, render: Message -> string, i: nat)
    requires f.table.Valid() && col in f.table.names && i < f.table.rows
    ensures var out := ApplyOperationToPartition(f, Operation("column_operation", "op_trim", col), SrcRegistry(ct, oc, render));
            var s := Str(Column(f.table, col)[i]);
            out.Returned? && Column(out.value.table, col)[i] == (if s == col then Text(s) else Text(Strip(s)))
            && (out.value.styled[col][i] <==> s != col && Strip(s) != s)
  {
    var reg := SrcRegistry(ct, oc, render);
    var df := Copy(f);
    var g := x => reg.trim(x, col);
    assert forall x :: g(x) == Returned(Trimming.TrimSpaces(x, Some(col)));
    AssignTrackedSpec(df, col, g);
  }

  /** Under the src copies character removal stores `(value, changed)`
      pairs, which never equal the original text, so every row of the
      column is flagged as changed. */
  lemma SrcRemovalFlagsEveryRow(f: Frame, col: string, mode: string, ct: CharTables, oc: ValidateInputs.OtherChecks,
                                render: Message -> string, i: nat)
    requires f.table.Valid() && col in f.table.names && i < f.table.rows
    requires mode == "op_remove_non_numeric" || mode == "op_remove_non_alpha"
    ensures var out := ApplyOperationToPartition(f, Operation("column_operation", mode, col), SrcRegistry(ct, oc, render));
            out.Returned? && Column(out.value.table, col)[i].Pair? && out.value.styled[col][i]
  {
    var reg := SrcRegistry(ct, oc, render);
    var df := Copy(f);
    var m := if mode == "op_remove_non_numeric" then "non_numeric" else "non_alphabetic";
    var g := x => reg.removeChars(x, m, col);
    assert forall x :: g(x).Returned? && g(x).value.Pair?;
    AssignTrackedSpec(df, col, g);
  }

  /** Under the src copies e-mail masking raises on a column with rows. */
  lemma SrcMaskEmailPreviewFails(f: Frame, col: string, ct: CharTables, oc: ValidateInputs.OtherChecks, render: Message -> string)
    requires f.table.Valid() && col in f.table.names && f.table.rows > 0
    ensures GeneratePreview(f, "op_mask_email", col, SrcRegistry(ct, oc, render)) == (f, false, TrackInvalidError().msg)
  {
    var reg := SrcRegistry(ct, oc, render);
    SrcMaskEmailRaises(ct, oc, render);
    MapOutcomeAllRaise(AsStr(Column(f.table, col)), x => reg.maskEmailTracked(x, col), TrackInvalidError());
  }

  /** On an exception the preview is the input frame, `False` and the
      exception's text; otherwise the result, `True`, and a message naming
      highlighted changes exactly when the column has a side-map entry. */
  lemma GeneratePreviewSpec(f: Frame, key: string, col: string, reg: Registry)
    requires f.table.Valid()
    ensures var out := ApplyOperationToPartition(Copy(f), Operation("column_operation", key, col), reg);
            var (p, ok, msg) := GeneratePreview(f, key, col, reg);
            (out.Raised? ==> p == f && !ok && msg == out.exc.msg)
            && (out.Returned? ==>
                  p == out.value && ok
                  && (msg == "Preview generated with highlighted changes" <==> col in p.styled)
                  && (msg == "Preview generated successfully" <==> col !in p.styled))
  {
  }
}
