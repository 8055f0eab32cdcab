/** Masking of cell values (src/operations/masking.py): `mask_data` in its
    default and e-mail modes, `mask_email` and `mask_words`. */
module Masking {
  import opened PyStr
  import opened Cells

  // ------------------------------------------------------- default mode

  /** Default mode: a value longer than 4 keeps its first and last two
      characters, a shorter one its first and last character, and what lies
      between becomes stars. */
  function MaskDefault(s: string): (r: string)
    ensures |s| > 4 ==> |r| == |s| && r[..2] == s[..2] && r[|s| - 2..] == s[|s| - 2..]
    ensures |s| > 4 ==> forall i :: 2 <= i < |s| - 2 ==> r[i] == '*'
    ensures 2 <= |s| <= 4 ==> |r| == |s| && r[0] == s[0] && r[|s| - 1] == s[|s| - 1]
    ensures 2 <= |s| <= 4 ==> forall i :: 1 <= i < |s| - 1 ==> r[i] == '*'
    ensures |s| == 1 ==> r == s + s
    ensures |s| == 0 ==> r == ""
  {
    if |s| <= 4 then Take(s, 1) + Stars(|s| - 2) + TakeLast(s, 1)
    else Take(s, 2) + Stars(|s| - 4) + TakeLast(s, 2)
  }

  /** Masking a masked value changes nothing. */
  lemma MaskDefaultIdempotent(s: string)
    ensures MaskDefault(MaskDefault(s)) == MaskDefault(s)
  {
    if |s| > 4 {
      MaskLongIdempotent(s);
    } else if |s| >= 2 {
      MaskShortIdempotent(s);
    } else if |s| == 1 {
      MaskOneIdempotent(s);
    } else {
      assert MaskDefault(s) == "";
    }
  }

  lemma MaskOneIdempotent(s: string)
    requires |s| == 1
    ensures MaskDefault(MaskDefault(s)) == MaskDefault(s)
  {
    var r := s + s;
    assert MaskDefault(s) == r;
    assert Take(r, 1) == s && TakeLast(r, 1) == s && Stars(0) == "";
    assert MaskDefault(r) == Take(r, 1) + Stars(0) + TakeLast(r, 1);
  }

  lemma MaskLongIdempotent(s: string)
    requires |s| > 4
    ensures MaskDefault(MaskDefault(s)) == MaskDefault(s)
  {
    var r := Take(s, 2) + Stars(|s| - 4) + TakeLast(s, 2);
    assert MaskDefault(s) == r;
    assert |r| == |s|;
    assert Take(r, 2) == Take(s, 2) by { assert r[..2] == s[..2]; }
    assert TakeLast(r, 2) == TakeLast(s, 2) by { assert r[|r| - 2..] == s[|s| - 2..]; }
    assert MaskDefault(r) == Take(r, 2) + Stars(|r| - 4) + TakeLast(r, 2);
  }

  lemma MaskShortIdempotent(s: string)
    requires 2 <= |s| <= 4
    ensures MaskDefault(MaskDefault(s)) == MaskDefault(s)
  {
    var r := Take(s, 1) + Stars(|s| - 2) + TakeLast(s, 1);
    assert MaskDefault(s) == r;
    assert |r| == |s|;
    assert Take(r, 1) == Take(s, 1) by { assert r[..1] == s[..1]; }
    assert TakeLast(r, 1) == TakeLast(s, 1) by { assert r[|r| - 1..] == s[|s| - 1..]; }
    assert MaskDefault(r) == Take(r, 1) + Stars(|r| - 2) + TakeLast(r, 1);
  }

  // --------------------------------------------------------- e-mail mode

  /** Length of the leading run without a line break (what `.` can match). */
  function LineLen(s: string): (n: nat)
    ensures n <= |s| && NoChar(s[..n], '\n')
    ensures n < |s| ==> s[n] == '\n'
  {
    if s == [] || s[0] == '\n' then 0 else 1 + LineLen(s[1..])
  }

  lemma {:induction false} LineLenOf(t: string, u: string)
    requires NoChar(t, '\n') && (u == [] || u[0] == '\n')
    ensures LineLen(t + u) == |t|
  {
    if t != [] {
      assert (t + u)[1..] == t[1..] + u;
      LineLenOf(t[1..], u);
    } else {
      assert t + u == u;
    }
  }

  /** The groups of `re.match(r'^([^@]+)(@.+)$', s)`, if it matches. */
  function EmailGroups(s: string): Option<(string, string)>
  {
    match Find(s, "@")
    case None => None
    case Some(i) =>
      var rest := s[i + 1..];
      var n := LineLen(rest);
      if i >= 1 && n >= 1 && n + 1 >= |rest| then Some((s[..i], "@" + rest[..n])) else None
  }

  /** What the pattern accepts: a non-empty user part free of `'@'`, then
      `'@'` and at least one more character, none of them a line break;
      `$` also lets one final line break through, outside the groups. */
  predicate EmailShape(s: string, user: string, domain: string)
  {
    |user| >= 1 && NoChar(user, '@') && |domain| >= 2 && domain[0] == '@'
    && NoChar(domain[1..], '\n') && (s == user + domain || s == user + domain + "\n")
  }

  lemma EmailGroupsSound(s: string)
    requires EmailGroups(s).Some?
    ensures EmailShape(s, EmailGroups(s).value.0, EmailGroups(s).value.1)
  {
    var i := Find(s, "@").value;
    var rest := s[i + 1..];
    var n := LineLen(rest);
    var u := s[..i];
    var d := "@" + rest[..n];
    NoCharBeforeFind(s, '@', i);
    assert d[1..] == rest[..n];
    assert s == u + "@" + rest by { assert s[i..i + 1] == "@"; assert s == s[..i] + s[i..i + 1] + s[i + 1..]; }
    if n == |rest| {
      assert rest[..n] == rest;
      assert s == u + d;
    } else {
      assert rest == rest[..n] + "\n";
      assert s == u + d + "\n";
    }
  }

  lemma EmailGroupsComplete(s: string, u: string, d: string)
    requires EmailShape(s, u, d)
    ensures EmailGroups(s) == Some((u, d))
  {
    assert s[..|u|] == u;
    assert s[|u|] == '@';
    FindChar(s, '@', |u|);
    var rest := s[|u| + 1..];
    var t := d[1..];
    if s == u + d {
      assert rest == t;
      LineLenOf(t, "");
      assert t + "" == t;
    } else {
      assert rest == t + "\n";
      LineLenOf(t, "\n");
    }
    assert rest[..|t|] == t;
    assert "@" + t == d;
  }

  /** The regular expression matches exactly the strings of that shape, and
      its groups are the user part and `'@'` with the rest. */
  lemma EmailGroupsSpec(s: string, u: string, d: string)
    ensures EmailGroups(s) == Some((u, d)) <==> EmailShape(s, u, d)
  {
    if EmailGroups(s) == Some((u, d)) {
      EmailGroupsSound(s);
    }
    if EmailShape(s, u, d) {
      EmailGroupsComplete(s, u, d);
    }
  }

  /** E-mail mode on a string. */
  function MaskEmailMode(s: string): string
  {
    match EmailGroups(s)
    case None => s
    case Some((user, domain)) =>
      if |user| <= 2 then user + "***" + domain else user[..2] + "***" + domain
  }

  /** A matching value keeps at most two characters of its user part, gets
      `"***"`, and keeps its `'@'` part; the result has the e-mail shape
      again with the same `'@'` part, and a value that does not match is
      returned as it is. */
  lemma MaskEmailModeSpec(s: string)
    ensures EmailGroups(s).None? ==> MaskEmailMode(s) == s
    ensures EmailGroups(s).Some? ==>
              var (u, d) := EmailGroups(s).value;
              MaskEmailMode(s) == Take(u, 2) + "***" + d
              && EmailGroups(MaskEmailMode(s)) == Some((Take(u, 2) + "***", d))
  {
    if EmailGroups(s).Some? {
      var g := EmailGroups(s).value;
      MaskEmailModeSome(s, g.0, g.1);
    }
  }

  lemma MaskEmailModeSome(s: string, u: string, d: string)
    requires EmailGroups(s) == Some((u, d))
    ensures MaskEmailMode(s) == Take(u, 2) + "***" + d
    ensures EmailGroups(MaskEmailMode(s)) == Some((Take(u, 2) + "***", d))
  {
    var v := Take(u, 2) + "***";
    assert MaskEmailMode(s) == v + d;
    assert EmailShape(v + d, v, d) by {
      EmailGroupsSound(s);
      forall j | 0 <= j < |v| ensures v[j] != '@' {
        if j < |Take(u, 2)| { assert v[j] == u[j]; }
      }
    }
    EmailGroupsComplete(v + d, v, d);
  }

  // ----------------------------------------------------------- mask_data

  /** `mask_data(data, mode, column_name)`: a header-like value is returned
      as it is; otherwise the mode decides, and an unknown mode gives
      `str(data)`. */
  function MaskData(c: Cell, mode: string, column: Option<string>): Cell
  {
    if Guarded(c, column) then c
    else
      var s := Str(c);
      if mode == "email" then Text(MaskEmailMode(s))
      else if mode == "default" then Text(MaskDefault(s))
      else Text(s)
  }

  lemma MaskDataCases(c: Cell, mode: string, column: Option<string>)
    ensures Guarded(c, column) ==> MaskData(c, mode, column) == c
    ensures !Guarded(c, column) && mode != "email" && mode != "default" ==>
              MaskData(c, mode, column) == Text(Str(c))
    ensures !Guarded(c, column) && mode == "default" ==> MaskData(c, mode, column) == Text(MaskDefault(Str(c)))
    ensures !Guarded(c, column) && mode == "email" ==> MaskData(c, mode, column) == Text(MaskEmailMode(Str(c)))
  {
  }

  /** Default-mode masking is idempotent on cells, header guard included. */
  lemma MaskDataDefaultIdempotent(c: Cell, column: Option<string>)
    ensures MaskData(MaskData(c, "default", column), "default", column) == MaskData(c, "default", column)
  {
    if !Guarded(c, column) {
      MaskDefaultIdempotent(Str(c));
    }
  }

  // ---------------------------------------------------------- mask_email

  /** `mask_email(data)` on `str(data)`: the local part is the text before
      the first `'@'` and the domain the text after it up to the next `'@'`. */
  function MaskEmailText(s: string): string
  {
    if Contains(s, "@") then
      SplitOnContains(s, "@");
      var parts := SplitOn(s, "@");
      var local := parts[0];
      var domain := parts[1];
      (if |local| <= 2 then "***" else local[..2] + "***") + "@" + domain
    else s
  }

  function MaskEmail(c: Cell): string
  {
    MaskEmailText(Str(c))
  }

  /** The first piece of `t.split('@')` is `'@'`-free and is followed by an
      `'@'` or by the end of `t`. */
  lemma FirstPiece(t: string)
    ensures var d := SplitOn(t, "@")[0];
            |d| <= |t| && t[..|d|] == d && NoChar(d, '@') && (|d| == |t| || t[|d|] == '@')
  {
    var d := SplitOn(t, "@")[0];
    SplitOnPiecesFree(t, "@");
    assert !Contains(d, "@");
    forall j | 0 <= j < |d| ensures d[j] != '@' {
      assert d[j..j + 1] == [d[j]];
      assert !OccursAt(d, "@", j);
    }
    match Find(t, "@")
    case None =>
    case Some(k) =>
      assert t[k..k + 1] == "@";
  }

  lemma MaskEmailTextAt(s: string, i: nat)
    requires Find(s, "@") == Some(i)
    ensures MaskEmailText(s) == (if i <= 2 then "***" else s[..2] + "***") + "@" + SplitOn(s[i + 1..], "@")[0]
  {
    assert SplitOn(s, "@") == [s[..i]] + SplitOn(s[i + 1..], "@");
  }

  /** A value without `'@'` is returned as `str(data)`. */
  lemma MaskEmailAbsent(s: string)
    requires !Contains(s, "@")
    ensures MaskEmailText(s) == s
  {
  }

  /** The pieces `mask_email` uses: with i the first `'@'`, the local part is
      `s[..i]` and the domain is the longest `'@'`-free text after it. */
  lemma MaskEmailSpec(s: string, i: nat)
    requires Find(s, "@") == Some(i)
    ensures var domain := SplitOn(s[i + 1..], "@")[0];
            i + 1 + |domain| <= |s| && s[i + 1..i + 1 + |domain|] == domain && NoChar(domain, '@')
            && (i + 1 + |domain| == |s| || s[i + 1 + |domain|] == '@')
            && MaskEmailText(s) == (if i <= 2 then "***" else s[..2] + "***") + "@" + domain
  {
    MaskEmailTextAt(s, i);
    FirstPiece(s[i + 1..]);
  }

  // ---------------------------------------------------------- mask_words

  /** One word: up to two characters it stays, otherwise its first two
      characters are followed by one star per further character. */
  function MaskWord(w: string): (r: string)
    ensures |w| <= 2 ==> r == w
    ensures |w| > 2 ==> |r| == |w| && r[..2] == w[..2] && forall i :: 2 <= i < |r| ==> r[i] == '*'
  {
    if |w| <= 2 then w else w[..2] + Stars(if |w| - 2 > 1 then |w| - 2 else 1)
  }

  function MaskEach(ws: seq<string>): (r: seq<string>)
    ensures |r| == |ws| && forall k :: 0 <= k < |ws| ==> r[k] == MaskWord(ws[k])
  {
    seq(|ws|, k requires 0 <= k < |ws| => MaskWord(ws[k]))
  }

  /** `' '.join(mask_word(w) for w in s.split())`. */
  function MaskWordsText(s: string): string
  {
    Join(MaskEach(Words(s)), " ")
  }

  /** `mask_words(data, column_name)`. */
  function MaskWords(c: Cell, column: Option<string>): Cell
  {
    if Guarded(c, column) then c else Text(MaskWordsText(Str(c)))
  }

  lemma MaskWordIsWord(w: string)
    requires |w| > 0 && NoSpace(w)
    ensures |MaskWord(w)| > 0 && NoSpace(MaskWord(w))
  {
    var r := MaskWord(w);
    if |w| > 2 {
      forall i | 0 <= i < |r| ensures !IsSpace(r[i]) {
        if i < 2 { assert r[i] == r[..2][i] == w[i]; }
      }
    }
  }

  lemma MaskWordIdempotent(w: string)
    ensures MaskWord(MaskWord(w)) == MaskWord(w)
  {
    var r := MaskWord(w);
    if |w| > 2 {
      var rr := MaskWord(r);
      assert |rr| == |r|;
      forall i | 0 <= i < |r| ensures rr[i] == r[i] {
        if i < 2 { assert rr[..2][i] == r[..2][i]; }
      }
    }
  }

  /** The masked text has one word per word of the input, each the masked
      input word, so the word count is kept. */
  lemma MaskWordsTextWords(s: string)
    ensures Words(MaskWordsText(s)) == MaskEach(Words(s))
    ensures |Words(MaskWordsText(s))| == |Words(s)|
  {
    var ws := Words(s);
    forall k | 0 <= k < |ws| ensures |MaskEach(ws)[k]| > 0 && NoSpace(MaskEach(ws)[k]) {
      MaskWordIsWord(ws[k]);
    }
    WordsOfJoin(MaskEach(ws));
  }

  /** Masking words twice is masking them once. */
  lemma MaskWordsTextIdempotent(s: string)
    ensures MaskWordsText(MaskWordsText(s)) == MaskWordsText(s)
  {
    MaskWordsTextWords(s);
    var ws := MaskEach(Words(s));
    assert MaskEach(ws) == ws by {
      forall k | 0 <= k < |ws| ensures MaskEach(ws)[k] == ws[k] {
        MaskWordIdempotent(Words(s)[k]);
      }
    }
  }

  /** `mask_words` is idempotent on cells, header guard included. */
  lemma MaskWordsIdempotent(c: Cell, column: Option<string>)
    ensures MaskWords(MaskWords(c, column), column) == MaskWords(c, column)
  {
    if !Guarded(c, column) {
      MaskWordsTextIdempotent(Str(c));
    }
  }
}
