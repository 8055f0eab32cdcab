/** The older find and replace without guard or flag (operations/find_replace.py). */
module LegacyFindReplace {
  import opened PyStr
  import opened Cells

  /** `find_replace(data, find_text, replace_text)`. */
  function LegacyFindReplace(c: Cell, find: string, repl: string): string
  {
    Replace(Str(c), find, repl)
  }

  /** The result is `str(data)` split on the find text and joined with the
      replacement, and it is `str(data)` itself when the find text does not
      occur or equals the replacement. */
  lemma LegacyFindReplaceSpec(c: Cell, find: string, repl: string)
    ensures |find| > 0 ==> LegacyFindReplace(c, find, repl) == Join(SplitOn(Str(c), find), repl)
    ensures |find| > 0 && !Contains(Str(c), find) ==> LegacyFindReplace(c, find, repl) == Str(c)
    ensures find == repl ==> LegacyFindReplace(c, find, repl) == Str(c)
  {
    var s := Str(c);
    ReplaceSame(s, find);
    if |find| > 0 {
      ReplaceIsSplitJoin(s, find, repl);
      if !Contains(s, find) {
        ReplaceAbsent(s, find, repl);
      }
    }
  }

  /** With k occurrences replaced the length is |s| + k * (|replace| - |find|). */
  lemma LegacyFindReplaceLength(c: Cell, find: string, repl: string)
    requires |find| > 0
    ensures |LegacyFindReplace(c, find, repl)| == |Str(c)| + (|SplitOn(Str(c), find)| - 1) * (|repl| - |find|)
  {
    ReplaceLength(Str(c), find, repl);
  }
}
