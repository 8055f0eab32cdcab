/** The older character removal without header guard or change flag
    (operations/remove_chars.py). */
module LegacyRemoveChars {
  import opened PyStr
  import opened Cells
  import RemoveChars

  /** Word characters (`\w`) and whitespace: what `[^\w\s]` leaves. */
  function WordOrSpace(ct: CharTables): char -> bool
  {
    x => ct.isWord(x) || IsSpace(x)
  }

  /** `remove_chars(data, mode, chars_to_remove)` as a value. */
  function LegacyKept(s: string, mode: string, chars: string, ct: CharTables): string
  {
    if mode == "specific" then Filter(s, NotIn(chars))
    else if mode == "non_numeric" then Filter(s, RemoveChars.KeepsNumeric)
    else if mode == "non_alphabetic" then Filter(s, WordOrSpace(ct))
    else s
  }

  /** `remove_chars` with its loop (the same loop as the newer version). */
  method LegacyRemove(c: Cell, mode: string, chars: string, ct: CharTables) returns (r: string)
    ensures r == LegacyKept(Str(c), mode, chars, ct)
  {
    var s := Str(c);
    if mode == "specific" {
      r := RemoveChars.RemoveListed(s, chars);
    } else if mode == "non_numeric" {
      r := Filter(s, RemoveChars.KeepsNumeric);
    } else if mode == "non_alphabetic" {
      r := Filter(s, WordOrSpace(ct));
    } else {
      r := s;
    }
  }

  function LegacyTest(mode: string, chars: string, ct: CharTables): char -> bool
  {
    if mode == "specific" then NotIn(chars)
    else if mode == "non_numeric" then RemoveChars.KeepsNumeric
    else WordOrSpace(ct)
  }

  /** Each known mode keeps exactly the characters passing its test, in
      order: the listed characters are dropped, non-numeric keeps digits,
      `'.'` and `'-'`, and non-alphabetic keeps word characters (digits and
      `'_'` included) and whitespace. */
  lemma LegacyKeptSpec(s: string, mode: string, chars: string, ct: CharTables)
    requires mode in {"specific", "non_numeric", "non_alphabetic"}
    ensures var keep := LegacyTest(mode, chars, ct);
            var r := LegacyKept(s, mode, chars, ct);
            IsSubsequence(r, s)
            && forall x :: multiset(r)[x] == if keep(x) then multiset(s)[x] else 0
  {
    var keep := LegacyTest(mode, chars, ct);
    assert LegacyKept(s, mode, chars, ct) == Filter(s, keep);
    FilterSubsequence(s, keep);
    FilterCounts(s, keep);
  }

  /** Every mode gives a subsequence of `str(data)` (an unknown mode all of
      it), and applying the same mode again changes nothing. */
  lemma LegacyKeptIdempotent(s: string, mode: string, chars: string, ct: CharTables)
    ensures IsSubsequence(LegacyKept(s, mode, chars, ct), s)
    ensures LegacyKept(LegacyKept(s, mode, chars, ct), mode, chars, ct) == LegacyKept(s, mode, chars, ct)
    ensures mode !in {"specific", "non_numeric", "non_alphabetic"} ==> LegacyKept(s, mode, chars, ct) == s
  {
    if mode in {"specific", "non_numeric", "non_alphabetic"} {
      var keep := LegacyTest(mode, chars, ct);
      assert LegacyKept(s, mode, chars, ct) == Filter(s, keep);
      FilterSubsequence(s, keep);
      FilterIdempotent(s, keep);
      assert LegacyKept(Filter(s, keep), mode, chars, ct) == Filter(Filter(s, keep), keep);
    } else {
      RemoveChars.SubsequenceRefl(s);
    }
  }
}
