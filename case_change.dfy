/** Case conversion (src/operations/case_change.py) over the Unicode case maps. */
module CaseChange {
  import opened PyStr
  import opened Cells

  /** `change_case(data, case_type, column_name)`. */
  function ChangeCase(c: Cell, caseType: string, column: Option<string>, ct: CharTables): Cell
  {
    if Guarded(c, column) then c
    else
      var s := Str(c);
      if caseType == "upper" then Text(ct.upper(s))
      else if caseType == "lower" then Text(ct.lower(s))
      else if caseType == "title" then Text(ct.title(s))
      else Text(s)
  }

  /** The header check comes first; then `'upper'`, `'lower'` and `'title'`
      apply their map to `str(data)` and any other type returns it. */
  lemma ChangeCaseSpec(c: Cell, caseType: string, column: Option<string>, ct: CharTables)
    ensures Guarded(c, column) ==> ChangeCase(c, caseType, column, ct) == c
    ensures !Guarded(c, column) && caseType == "upper" ==> ChangeCase(c, caseType, column, ct) == Text(ct.upper(Str(c)))
    ensures !Guarded(c, column) && caseType == "lower" ==> ChangeCase(c, caseType, column, ct) == Text(ct.lower(Str(c)))
    ensures !Guarded(c, column) && caseType == "title" ==> ChangeCase(c, caseType, column, ct) == Text(ct.title(Str(c)))
    ensures !Guarded(c, column) && caseType !in {"upper", "lower", "title"} ==>
              ChangeCase(c, caseType, column, ct) == Text(Str(c))
  {
  }

  /** The map `change_case` applies for a case type; other types apply none. */
  function CaseMap(caseType: string, ct: CharTables, s: string): string
  {
    if caseType == "upper" then ct.upper(s)
    else if caseType == "lower" then ct.lower(s)
    else if caseType == "title" then ct.title(s)
    else s
  }

  /** A value the guard does not stop always comes back as text, and
      converting it again changes nothing whenever the chosen case map is
      idempotent on it, whether or not the result now looks like the header. */
  lemma ChangeCaseIdempotent(c: Cell, caseType: string, column: Option<string>, ct: CharTables)
    requires CaseMap(caseType, ct, CaseMap(caseType, ct, Str(c))) == CaseMap(caseType, ct, Str(c))
    ensures !Guarded(c, column) ==> ChangeCase(c, caseType, column, ct) == Text(CaseMap(caseType, ct, Str(c)))
    ensures ChangeCase(ChangeCase(c, caseType, column, ct), caseType, column, ct) == ChangeCase(c, caseType, column, ct)
  {
  }
}
