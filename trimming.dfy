/** Whitespace trimming (src/operations/trimming.py). */
module Trimming {
  import opened PyStr
  import opened Cells

  /** `trim_spaces(data, column_name)`. */
  function TrimSpaces(c: Cell, column: Option<string>): Cell
  {
    if Guarded(c, column) then c else Text(Strip(Str(c)))
  }

  /** A header-like value comes back as it is, without conversion; any other
      value becomes a middle part of `str(data)` that neither starts nor ends
      with whitespace, and what was cut from either end is whitespace. */
  lemma TrimSpacesSpec(c: Cell, column: Option<string>)
    ensures Guarded(c, column) ==> TrimSpaces(c, column) == c
    ensures !Guarded(c, column) ==>
              var r := TrimSpaces(c, column);
              r.Text? && Stripped(r.s) && TrimmedFrom(r.s, Str(c))
  {
    StripSpec(Str(c));
  }

  /** Trimming twice is trimming once. */
  lemma TrimSpacesIdempotent(c: Cell, column: Option<string>)
    ensures TrimSpaces(TrimSpaces(c, column), column) == TrimSpaces(c, column)
  {
    if !Guarded(c, column) {
      StripIdempotent(Str(c));
    }
  }
}
