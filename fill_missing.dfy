/** Filling of missing and blank cells (src/operations/fill_missing.py). */
module FillMissing {
  import opened PyStr
  import opened Cells

  /** A cell `fill_missing` treats as missing: NaN/None, or a value whose
      `str` is empty or whitespace only. */
  predicate IsBlank(c: Cell) { IsMissing(c) || Strip(Str(c)) == "" }

  /** The nested `_safe_str(fill_value)`: a fill value `float()` reads as an
      integral number is written as that integer, any other as given. */
  function RenderFill(ns: NumberSemantics, fill: string): string
  {
    match ns.parseFloat(fill)
    case Some(x) => if IsIntegral(x) then IntToString(x.Floor) else fill
    case None => fill
  }

  /** `fill_missing(data, fill_value, column_name)`. */
  function FillMissing(c: Cell, fill: string, column: Option<string>, ns: NumberSemantics): Cell
  {
    if Guarded(c, column) then c
    else if IsBlank(c) then Text(RenderFill(ns, fill))
    else c
  }

  /** Header-like values and values that are present stay; missing, empty and
      whitespace-only values become the rendered fill value, which is the
      integer's digits when the fill value reads as an integral number. */
  lemma FillMissingSpec(c: Cell, fill: string, column: Option<string>, ns: NumberSemantics)
    ensures Guarded(c, column) || !IsBlank(c) ==> FillMissing(c, fill, column, ns) == c
    ensures !Guarded(c, column) && (IsMissing(c) || AllSpace(Str(c))) ==>
              FillMissing(c, fill, column, ns) == Text(RenderFill(ns, fill))
    ensures ns.parseFloat(fill).Some? && IsIntegral(ns.parseFloat(fill).value) ==>
              RenderFill(ns, fill) == IntToString(ns.parseFloat(fill).value.Floor)
    ensures !(ns.parseFloat(fill).Some? && IsIntegral(ns.parseFloat(fill).value)) ==> RenderFill(ns, fill) == fill
  {
    StripEmptyIffAllSpace(Str(c));
  }

  /** Filling twice is filling once when the rendered fill value is not blank. */
  lemma FillMissingIdempotent(c: Cell, fill: string, column: Option<string>, ns: NumberSemantics)
    requires !AllSpace(RenderFill(ns, fill))
    ensures FillMissing(FillMissing(c, fill, column, ns), fill, column, ns) == FillMissing(c, fill, column, ns)
  {
    StripEmptyIffAllSpace(RenderFill(ns, fill));
  }
}
