/** Find and replace with change tracking (src/operations/find_replace.py). */
module FindReplace {
  import opened PyStr
  import opened Cells

  /** `find_replace(data, find_text, replace_text, column_name)`: the new
      cell and whether it differs from `str(data)`. */
  function FindReplace(c: Cell, find: string, repl: string, column: Option<string>): (Cell, bool)
  {
    if Guarded(c, column) then (c, false)
    else
      var s := Str(c);
      var n := Replace(s, find, repl);
      (Text(n), s != n)
  }

  /** A header-like value comes back flagged unchanged; otherwise the value is
      `str(data)` with the occurrences replaced (for a non-empty find text:
      split on it and joined with the replacement), and the flag says
      whether that differs from `str(data)`. */
  lemma FindReplaceSpec(c: Cell, find: string, repl: string, column: Option<string>)
    ensures Guarded(c, column) ==> FindReplace(c, find, repl, column) == (c, false)
    ensures !Guarded(c, column) ==>
              var (v, changed) := FindReplace(c, find, repl, column);
              v == Text(Replace(Str(c), find, repl)) && (changed <==> v.s != Str(c))
    ensures !Guarded(c, column) && |find| > 0 ==>
              FindReplace(c, find, repl, column).0 == Text(Join(SplitOn(Str(c), find), repl))
  {
    if !Guarded(c, column) && |find| > 0 {
      ReplaceIsSplitJoin(Str(c), find, repl);
    }
  }

  /** When the find text does not occur, or equals the replacement, the
      result is `(str(data), False)`. */
  lemma FindReplaceNoChange(c: Cell, find: string, repl: string, column: Option<string>)
    requires !Guarded(c, column)
    requires (|find| > 0 && !Contains(Str(c), find)) || find == repl
    ensures FindReplace(c, find, repl, column) == (Text(Str(c)), false)
  {
    if find == repl {
      ReplaceSame(Str(c), find);
    }
  }
}
