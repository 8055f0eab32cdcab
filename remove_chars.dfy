/** Character removal with change tracking (src/operations/remove_chars.py). */
module RemoveChars {
  import opened PyStr
  import opened Cells

  /** The characters `[0-9.-]` keeps. */
  predicate KeepsNumeric(c: char) { IsAsciiDigit(c) || c == '.' || c == '-' }

  /** Letters (`isalpha`) and whitespace. */
  function LettersAndSpace(ct: CharTables): char -> bool
  {
    x => ct.isAlpha(x) || IsSpace(x)
  }

  /** The loop of the specific mode: every listed character in turn is
      removed with `s.replace(char, '')`. */
  method RemoveListed(s: string, chars: string) returns (r: string)
    ensures r == Filter(s, NotIn(chars))
  {
    r := s;
    assert chars[..0] == [];
    FilterAllKept(s, NotIn([]));
    for k := 0 to |chars|
      invariant r == Filter(s, NotIn(chars[..k]))
    {
      ReplaceCharIsFilter(r, chars[k]);
      FilterNotInAppend(s, chars[..k], chars[k]);
      assert chars[..k + 1] == chars[..k] + [chars[k]];
      r := Replace(r, [chars[k]], "");
    }
    assert chars[..|chars|] == chars;
  }

  /** The string a mode leaves of `s`; an unknown mode leaves all of it. */
  function Kept(s: string, mode: string, chars: string, ct: CharTables): string
  {
    if mode == "specific" then Filter(s, NotIn(chars))
    else if mode == "non_numeric" then Filter(s, KeepsNumeric)
    else if mode == "non_alphabetic" then Filter(s, LettersAndSpace(ct))
    else s
  }

  /** `remove_chars(data, mode, chars_to_remove, column_name)` as a value:
      the new cell and whether it differs from `str(data)`. */
  function RemoveCharsValue(c: Cell, mode: string, chars: string, column: Option<string>, ct: CharTables): (Cell, bool)
  {
    if Guarded(c, column) then (c, false)
    else
      var s := Str(c);
      var r := Kept(s, mode, chars, ct);
      (Text(r), s != r)
  }

  /** `remove_chars` with its loop. */
  method RemoveChars(c: Cell, mode: string, chars: string, column: Option<string>, ct: CharTables)
    returns (value: Cell, changed: bool)
    ensures (value, changed) == RemoveCharsValue(c, mode, chars, column, ct)
  {
    if Guarded(c, column) {
      return c, false;
    }
    var s := Str(c);
    var r: string;
    if mode == "specific" {
      r := RemoveListed(s, chars);
    } else if mode == "non_numeric" {
      r := Filter(s, KeepsNumeric);
    } else if mode == "non_alphabetic" {
      r := Filter(s, LettersAndSpace(ct));
    } else {
      r := s;
    }
    value, changed := Text(r), s != r;
  }

  /** The test each known mode keeps characters by. */
  function KeepTest(mode: string, chars: string, ct: CharTables): char -> bool
  {
    if mode == "specific" then NotIn(chars)
    else if mode == "non_numeric" then KeepsNumeric
    else LettersAndSpace(ct)
  }

  /** A known mode keeps exactly the characters that pass its test, each as
      often as it occurs and in its original order. */
  lemma KeptSpec(s: string, mode: string, chars: string, ct: CharTables)
    requires mode in {"specific", "non_numeric", "non_alphabetic"}
    ensures var keep := KeepTest(mode, chars, ct);
            var r := Kept(s, mode, chars, ct);
            IsSubsequence(r, s)
            && forall x :: multiset(r)[x] == if keep(x) then multiset(s)[x] else 0
  {
    var keep := KeepTest(mode, chars, ct);
    assert Kept(s, mode, chars, ct) == Filter(s, keep);
    FilterSubsequence(s, keep);
    FilterCounts(s, keep);
  }

  /** Header-like values come back as they are, flagged unchanged; for any
      other value the flag says whether the result differs from `str(data)`,
      the result is a subsequence of it, and an unknown mode returns it. */
  lemma RemoveCharsSpec(c: Cell, mode: string, chars: string, column: Option<string>, ct: CharTables)
    ensures Guarded(c, column) ==> RemoveCharsValue(c, mode, chars, column, ct) == (c, false)
    ensures !Guarded(c, column) ==>
              var (v, changed) := RemoveCharsValue(c, mode, chars, column, ct);
              v.Text? && IsSubsequence(v.s, Str(c)) && (changed <==> v.s != Str(c))
    ensures !Guarded(c, column) && mode !in {"specific", "non_numeric", "non_alphabetic"} ==>
              RemoveCharsValue(c, mode, chars, column, ct) == (Text(Str(c)), false)
  {
    if !Guarded(c, column) {
      var s := Str(c);
      if mode in {"specific", "non_numeric", "non_alphabetic"} {
        KeptSpec(s, mode, chars, ct);
      } else {
        SubsequenceRefl(s);
      }
    }
  }

  lemma {:induction false} SubsequenceRefl(s: string)
    ensures IsSubsequence(s, s)
  {
    if s != [] {
      SubsequenceRefl(s[1..]);
    }
  }

  /** Removing with the same settings a second time changes nothing and is
      flagged unchanged. */
  lemma RemoveCharsIdempotent(c: Cell, mode: string, chars: string, column: Option<string>, ct: CharTables)
    ensures var (v, _) := RemoveCharsValue(c, mode, chars, column, ct);
            RemoveCharsValue(v, mode, chars, column, ct) == (v, false)
  {
    if !Guarded(c, column) {
      var s := Str(c);
      if mode in {"specific", "non_numeric", "non_alphabetic"} {
        var keep := KeepTest(mode, chars, ct);
        assert Kept(s, mode, chars, ct) == Filter(s, keep);
        FilterIdempotent(s, keep);
        assert Kept(Filter(s, keep), mode, chars, ct) == Filter(Filter(s, keep), keep);
      }
    }
  }
}
