/** The older fill without guard or rendering (operations/fill_missing.py). */
module LegacyFillMissing {
  import opened PyStr
  import opened Cells
  import FillMissing

  /** `fill_missing(data, fill_value)`: the fill value is returned as given. */
  function LegacyFillMissing(c: Cell, fill: Cell): Cell
  {
    if FillMissing.IsBlank(c) then fill else c
  }

  /** Missing, empty and whitespace-only values become the fill value as
      given, every other value stays. */
  lemma LegacyFillMissingSpec(c: Cell, fill: Cell)
    ensures IsMissing(c) || AllSpace(Str(c)) ==> LegacyFillMissing(c, fill) == fill
    ensures !IsMissing(c) && !AllSpace(Str(c)) ==> LegacyFillMissing(c, fill) == c
  {
    StripEmptyIffAllSpace(Str(c));
  }

  /** Filling twice is filling once when the fill value is neither missing
      nor blank. */
  lemma LegacyFillMissingIdempotent(c: Cell, fill: Cell)
    requires !IsMissing(fill) && !AllSpace(Str(fill))
    ensures LegacyFillMissing(LegacyFillMissing(c, fill), fill) == LegacyFillMissing(c, fill)
  {
    StripEmptyIffAllSpace(Str(fill));
  }
}
