/** The older masking that keeps two characters at each end
    (operations/masking.py; main.py has the same function). */
module LegacyMasking {
  import opened PyStr
  import opened Cells

  /** `mask_data(data)`: up to 4 characters the value stays; a longer one
      keeps its length, its first 2 and last 2 characters, and every
      character between becomes a star. */
  function LegacyMaskData(c: Cell): (r: string)
    ensures |Str(c)| <= 4 ==> r == Str(c)
    ensures |Str(c)| > 4 ==> |r| == |Str(c)| && r[..2] == Str(c)[..2] && r[|r| - 2..] == Str(c)[|r| - 2..]
    ensures |Str(c)| > 4 ==> forall i :: 2 <= i < |r| - 2 ==> r[i] == '*'
  {
    var s := Str(c);
    if |s| <= 4 then s else Take(s, 2) + Stars(|s| - 4) + TakeLast(s, 2)
  }

  /** Masking the masked text changes nothing. */
  lemma LegacyMaskDataIdempotent(c: Cell)
    ensures LegacyMaskData(Text(LegacyMaskData(c))) == LegacyMaskData(c)
  {
    var r := LegacyMaskData(c);
    var rr := LegacyMaskData(Text(r));
    if |r| > 4 {
      assert |rr| == |r|;
      forall i | 0 <= i < |r| ensures rr[i] == r[i] {
        if i < 2 { assert rr[..2][i] == r[..2][i]; }
        else if i >= |r| - 2 { assert rr[|r| - 2..][i - (|r| - 2)] == r[|r| - 2..][i - (|r| - 2)]; }
      }
    }
  }
}
