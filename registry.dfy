/** The per-value functions the dispatchers import from the `operations`
    package. Which copy of the package Python finds depends on the search
    path, so the dispatchers take it as a parameter; `SrcRegistry` is the
    copy under src/operations. */
module OperationRegistry {
  import opened PyStr
  import opened Cells
  import opened Tables
  import Masking
  import Trimming
  import CaseChange
  import RemoveChars
  import ValidateInputs

  /** Each call as a dispatcher makes it: the value (after `astype(str)`)
      and the column name, and the mode where there is one. `validate` is
      `apply_validation` with a text table, `validateNoTexts` the same with
      `texts=None`, and `render` formats a status message with the preview
      text table. */
  datatype Registry = Registry(
    mask: (Cell, string) -> Outcome<Cell>,
    maskEmailTracked: (Cell, string) -> Outcome<Cell>,
    maskWords: (Cell, string) -> Outcome<Cell>,
    trim: (Cell, string) -> Outcome<Cell>,
    changeCase: (Cell, string, string) -> Outcome<Cell>,
    removeChars: (Cell, string, string) -> Outcome<Cell>,
    validate: (Frame, string, string) -> FrameReply,
    validateNoTexts: (Frame, string, string) -> Outcome<FrameReply>,
    render: Message -> string)

  /** `mask_data(x, mode='email', column_name=column, track_invalid=True)`
      passes an argument the src `mask_data` does not take. */
  function TrackInvalidError(): Exc
  {
    TypeError("mask_data() got an unexpected keyword argument 'track_invalid'")
  }

  /** Indexing `texts` when it is `None`. */
  function NoTextsError(): Exc
  {
    TypeError("'NoneType' object is not subscriptable")
  }

  /** `apply_validation(df, col, type, None)`: every path that formats a
      text raises; only the unknown type, whose message is a literal,
      returns. */
  function ValidateWithoutTexts(f: Frame, col: string, kind: string, ct: CharTables, oc: ValidateInputs.OtherChecks): Outcome<FrameReply>
  {
    if !f.table.Valid() then Raised(NoTextsError())
    else
      var r := ValidateInputs.ApplyValidation(f, col, kind, ct, oc);
      if r.msg.Plain? then Returned(r) else Raised(NoTextsError())
  }

  /** The src copies: `mask_data`, `mask_words`, `trim_spaces`,
      `change_case`, `remove_chars` (which returns a `(value, changed)`
      pair, stored as it is) and `apply_validation`. A table whose columns
      have different lengths never reaches `validate`; it is answered with
      the unchanged frame. */
  function SrcRegistry(ct: CharTables, oc: ValidateInputs.OtherChecks, render: Message -> string): Registry
  {
    Registry(
      (x, col) => Returned(Masking.MaskData(x, "default", Some(col))),
      (x, col) => Raised(TrackInvalidError()),
      (x, col) => Returned(Masking.MaskWords(x, Some(col))),
      (x, col) => Returned(Trimming.TrimSpaces(x, Some(col))),
      (x, caseType, col) => Returned(CaseChange.ChangeCase(x, caseType, Some(col), ct)),
      (x, mode, col) => var (v, changed) := RemoveChars.RemoveCharsValue(x, mode, "", Some(col), ct); Returned(Pair(v, changed)),
      (f: Frame, col: string, kind: string) => if f.table.Valid() then ValidateInputs.ApplyValidation(f, col, kind, ct, oc) else FrameReply(f, Success, Plain("")),
      (f: Frame, col: string, kind: string) => ValidateWithoutTexts(f, col, kind, ct, oc),
      render)
  }

  /** `series.astype(str)`. */
  function AsStr(cells: seq<Cell>): (r: seq<Cell>)
    ensures |r| == |cells| && forall i :: 0 <= i < |cells| ==> r[i] == Text(Str(cells[i]))
  {
    seq(|cells|, i requires 0 <= i < |cells| => Text(Str(cells[i])))
  }

  /** `series.apply(g)`: the values in order, or the exception of the first
      value that raises. */
  function MapOutcome(cells: seq<Cell>, g: Cell -> Outcome<Cell>): (r: Outcome<seq<Cell>>)
    ensures r.Returned? <==> forall i :: 0 <= i < |cells| ==> g(cells[i]).Returned?
    ensures r.Returned? ==> |r.value| == |cells| && forall i :: 0 <= i < |cells| ==> g(cells[i]) == Returned(r.value[i])
    ensures r.Raised? ==> exists i :: 0 <= i < |cells| && g(cells[i]) == Raised(r.exc)
                                  && forall k :: 0 <= k < i ==> g(cells[k]).Returned?
  {
    if cells == [] then Returned([])
    else match g(cells[0])
      case Raised(e) => Raised(e)
      case Returned(v) =>
        match MapOutcome(cells[1..], g)
        case Raised(e) =>
          var j :| 0 <= j < |cells[1..]| && g(cells[1..][j]) == Raised(e) && forall k :: 0 <= k < j ==> g(cells[1..][k]).Returned?;
          assert g(cells[j + 1]) == Raised(e);
          Raised(e)
        case Returned(vs) => Returned([v] + vs)
  }

  /** Under the src copies the tracked e-mail masking raises on any value. */
  lemma SrcMaskEmailRaises(ct: CharTables, oc: ValidateInputs.OtherChecks, render: Message -> string)
    ensures forall x, col :: SrcRegistry(ct, oc, render).maskEmailTracked(x, col) == Raised(TrackInvalidError())
  {
  }

  /** When every value raises the same exception, so does the column. */
  lemma MapOutcomeAllRaise(cells: seq<Cell>, g: Cell -> Outcome<Cell>, e: Exc)
    requires |cells| > 0 && forall x :: g(x) == Raised(e)
    ensures MapOutcome(cells, g) == Raised(e)
  {
    assert !g(cells[0]).Returned?;
  }

  /** With `texts=None` validation never returns new cells or a side map:
      it raises, or returns the input frame with an error. */
  lemma ValidateWithoutTextsSpec(f: Frame, col: string, kind: string, ct: CharTables, oc: ValidateInputs.OtherChecks)
    requires f.table.Valid()
    ensures var r := ValidateWithoutTexts(f, col, kind, ct, oc);
            (col !in f.table.names || ValidateInputs.KindOf(kind).Some? ==> r == Raised(NoTextsError()))
            && (col in f.table.names && ValidateInputs.KindOf(kind).None? ==>
                  r == Returned(FrameReply(f, Error, Plain("Unknown validation type: " + kind))))
  {
  }
}
