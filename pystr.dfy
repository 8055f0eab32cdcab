/** Python string semantics that the cell transforms rely on: `str.isspace`,
    `str.strip`, `str.split()` on whitespace, `str.split(sep)`, `sep.join`,
    `str.find`, `str.replace`, character filtering and decimal rendering of
    integers. */
module PyStr {

  datatype Option<T> = None | Some(value: T)

  /** Python's `str.isspace()`, which is also what `str.strip()`, `str.split()`
      and the `\s` class of `re` use (Py_UNICODE_ISSPACE). */
  predicate IsSpace(c: char) {
    c in SpaceChars
  }

  const SpaceChars: set<char> := {'\t', '\n', '\U{B}', '\U{C}', '\r', '\U{1C}', '\U{1D}', '\U{1E}', '\U{1F}', ' ',
    '\U{85}', '\U{A0}', '\U{1680}', '\U{2000}', '\U{2001}', '\U{2002}', '\U{2003}', '\U{2004}', '\U{2005}', '\U{2006}', '\U{2007}',
    '\U{2008}', '\U{2009}', '\U{200A}', '\U{2028}', '\U{2029}', '\U{202F}', '\U{205F}', '\U{3000}'}

  predicate IsAsciiDigit(c: char) { '0' <= c <= '9' }

  predicate IsAsciiLetter(c: char) { 'a' <= c <= 'z' || 'A' <= c <= 'Z' }

  predicate AllSpace(s: string) { forall i :: 0 <= i < |s| ==> IsSpace(s[i]) }

  predicate NoSpace(s: string) { forall i :: 0 <= i < |s| ==> !IsSpace(s[i]) }

  predicate Stripped(s: string) {
    s == [] || (!IsSpace(s[0]) && !IsSpace(s[|s| - 1]))
  }

  /** The Unicode tables the model does not spell out: `str.isalpha`, the
      `\w` and `\d` classes of `re`, and the case maps `str.upper`,
      `str.lower` and `str.title`. */
  datatype CharTables = CharTables(
    isAlpha: char -> bool,
    isWord: char -> bool,
    isDecimal: char -> bool,
    upper: string -> string,
    lower: string -> string,
    title: string -> string)

  // --------------------------------------------------------------- slices

  /** `s[:n]`. */
  function Take(s: string, n: nat): string
  {
    if n <= |s| then s[..n] else s
  }

  /** `s[-n:]` for n >= 1. */
  function TakeLast(s: string, n: nat): string
  {
    if n <= |s| then s[|s| - n..] else s
  }

  /** `'*' * n`, which is empty for n <= 0. */
  function Stars(n: int): (r: string)
    ensures |r| == (if n > 0 then n else 0)
    ensures forall i :: 0 <= i < |r| ==> r[i] == '*'
  {
    seq(if n > 0 then n else 0, _ => '*')
  }

  // ---------------------------------------------------------------- strip

  /** Number of leading whitespace characters. */
  function LeadCount(s: string): (n: nat)
    ensures n <= |s|
  {
    if s == [] || !IsSpace(s[0]) then 0 else 1 + LeadCount(s[1..])
  }

  /** The leading run is whitespace and is followed by a non-whitespace
      character or by the end. */
  lemma {:induction false} LeadCountSpec(s: string)
    ensures var n := LeadCount(s);
            AllSpace(s[..n]) && (n < |s| ==> !IsSpace(s[n]))
  {
    if s != [] && IsSpace(s[0]) {
      LeadCountSpec(s[1..]);
      var n := LeadCount(s[1..]);
      assert s[..n + 1] == [s[0]] + s[1..][..n];
    }
  }

  /** Number of trailing whitespace characters. */
  function TrailCount(s: string): (n: nat)
    ensures n <= |s|
  {
    if s == [] || !IsSpace(s[|s| - 1]) then 0 else 1 + TrailCount(s[..|s| - 1])
  }

  /** The trailing run is whitespace and is preceded by a non-whitespace
      character or by the start. */
  lemma {:induction false} TrailCountSpec(s: string)
    ensures var n := TrailCount(s);
            AllSpace(s[|s| - n..]) && (n < |s| ==> !IsSpace(s[|s| - 1 - n]))
  {
    if s != [] && IsSpace(s[|s| - 1]) {
      var t := s[..|s| - 1];
      TrailCountSpec(t);
      var n := TrailCount(t);
      assert s[|s| - (n + 1)..] == t[|t| - n..] + [s[|s| - 1]];
      assert n + 1 < |s| ==> s[|s| - 1 - (n + 1)] == t[|t| - 1 - n];
    }
  }

  /** `s.strip()`. */
  function Strip(s: string): string
  {
    var a := LeadCount(s);
    var t := s[a..];
    var b := TrailCount(t);
    t[..|t| - b]
  }

  /** The result of `s.strip()` is the middle of `s`, what was cut from
      either end is whitespace, and the result neither starts nor ends
      with it. */
  lemma StripSpec(s: string)
    ensures Stripped(Strip(s))
    ensures TrimmedFrom(Strip(s), s)
  {
    var a := LeadCount(s);
    var t := s[a..];
    var b := TrailCount(t);
    var r := t[..|t| - b];
    LeadCountSpec(s);
    TrailCountSpec(t);
    assert Strip(s) == r;
    if r != [] {
      assert r[0] == s[a];
      assert r[|r| - 1] == t[|t| - 1 - b];
    }
    assert s[a..a + |r|] == r;
    assert s[a + |r|..] == t[|t| - b..];
    assert 0 <= a <= |s| - |r| && AllSpace(s[..a]) && AllSpace(s[a + |r|..]);
  }

  /** `r` is a middle part of `s` and what lies around it is whitespace. */
  predicate TrimmedFrom(r: string, s: string)
  {
    exists i :: 0 <= i <= |s| - |r| && s[i..i + |r|] == r
                && AllSpace(s[..i]) && AllSpace(s[i + |r|..])
  }

  lemma StripOfStripped(s: string)
    requires Stripped(s)
    ensures Strip(s) == s
  {
    assert LeadCount(s) == 0;
    assert s[0..] == s;
    assert TrailCount(s) == 0;
  }

  /** Stripping twice is stripping once. */
  lemma StripIdempotent(s: string)
    ensures Strip(Strip(s)) == Strip(s)
  {
    StripSpec(s);
    StripOfStripped(Strip(s));
  }

  lemma {:induction false} LeadCountAllSpace(s: string)
    requires AllSpace(s)
    ensures LeadCount(s) == |s|
  {
    if s != [] {
      LeadCountAllSpace(s[1..]);
    }
  }

  lemma AllSpaceAppend(x: string, y: string)
    requires AllSpace(x) && AllSpace(y)
    ensures AllSpace(x + y)
  {
    forall k | 0 <= k < |x + y| ensures IsSpace((x + y)[k]) {
      if k < |x| {
        assert (x + y)[k] == x[k];
      } else {
        assert (x + y)[k] == y[k - |x|];
      }
    }
  }

  /** A string is blank after stripping exactly when it is all whitespace. */
  lemma StripEmptyIffAllSpace(s: string)
    ensures Strip(s) == [] <==> AllSpace(s)
  {
    if AllSpace(s) {
      StripAllSpace(s);
    }
    if Strip(s) == [] {
      AllSpaceOfStripEmpty(s);
    }
  }

  lemma StripAllSpace(s: string)
    requires AllSpace(s)
    ensures Strip(s) == []
  {
    LeadCountAllSpace(s);
    assert s[LeadCount(s)..] == [];
  }

  lemma AllSpaceOfStripEmpty(s: string)
    requires Strip(s) == []
    ensures AllSpace(s)
  {
    var a := LeadCount(s);
    var t := s[a..];
    var b := TrailCount(t);
    LeadCountSpec(s);
    TrailCountSpec(t);
    assert t[..|t| - b] == [];
    assert t[|t| - b..] == t;
    assert s == s[..a] + t;
    AllSpaceAppend(s[..a], t);
  }

  // ---------------------------------------------------------------- join

  /** `sep.join(parts)`. */
  function Join(parts: seq<string>, sep: string): string
  {
    if |parts| == 0 then "" else if |parts| == 1 then parts[0]
    else parts[0] + sep + Join(parts[1..], sep)
  }

  function SumLen(parts: seq<string>): nat
  {
    if parts == [] then 0 else |parts[0]| + SumLen(parts[1..])
  }

  lemma {:induction false} JoinLength(parts: seq<string>, sep: string)
    requires |parts| > 0
    ensures |Join(parts, sep)| == SumLen(parts) + (|parts| - 1) * |sep|
  {
    if |parts| > 1 {
      JoinLength(parts[1..], sep);
    }
  }

  // ------------------------------------------------------- split() on words

  /** Length of the leading run of non-whitespace characters. */
  function WordLen(s: string): (n: nat)
    ensures n <= |s|
    ensures NoSpace(s[..n])
    ensures n < |s| ==> IsSpace(s[n])
  {
    if s == [] || IsSpace(s[0]) then 0 else 1 + WordLen(s[1..])
  }

  /** `s.split()` with no argument: the maximal runs of non-whitespace. */
  function Words(s: string): (ws: seq<string>)
    ensures forall k :: 0 <= k < |ws| ==> |ws[k]| > 0 && NoSpace(ws[k])
    decreases |s|
  {
    if s == [] then []
    else if IsSpace(s[0]) then Words(s[1..])
    else
      var n := WordLen(s);
      [s[..n]] + Words(s[n..])
  }

  lemma WordLenOfWord(w: string, t: string)
    requires NoSpace(w)
    requires t == [] || IsSpace(t[0])
    ensures WordLen(w + t) == |w|
    decreases |w|
  {
    if w != [] {
      assert (w + t)[1..] == w[1..] + t;
      WordLenOfWord(w[1..], t);
    } else {
      assert w + t == t;
    }
  }

  lemma {:induction false} WordsOfLeadingSpace(t: string)
    requires t != [] && IsSpace(t[0])
    ensures Words(t) == Words(t[1..])
  {
  }

  /** Words that are non-empty and free of whitespace survive a round trip
      through `' '.join` and `split()`. */
  lemma {:induction false} WordsOfJoin(ws: seq<string>)
    requires forall k :: 0 <= k < |ws| ==> |ws[k]| > 0 && NoSpace(ws[k])
    ensures Words(Join(ws, " ")) == ws
  {
    if |ws| == 1 {
      var w := ws[0];
      WordLenOfWord(w, "");
      assert w + "" == w;
      assert w[..|w|] == w;
      assert w[|w|..] == [];
    } else if |ws| > 1 {
      var w := ws[0];
      var rest := " " + Join(ws[1..], " ");
      assert Join(ws, " ") == w + rest;
      WordLenOfWord(w, rest);
      assert (w + rest)[..|w|] == w;
      assert (w + rest)[|w|..] == rest;
      assert Words(w + rest) == [w] + Words(rest);
      WordsOfLeadingSpace(rest);
      assert rest[1..] == Join(ws[1..], " ");
      WordsOfJoin(ws[1..]);
    }
  }

  // ----------------------------------------------------------------- find

  predicate OccursAt(s: string, pat: string, i: nat) {
    i + |pat| <= |s| && s[i..i + |pat|] == pat
  }

  predicate Contains(s: string, pat: string) {
    exists i: nat :: i <= |s| && OccursAt(s, pat, i)
  }

  /** The first index at or after `from` where `pat` occurs. */
  function FindFrom(s: string, pat: string, from: nat): (r: Option<nat>)
    ensures r.Some? ==> from <= r.value && OccursAt(s, pat, r.value)
    decreases |s| - from
  {
    if from + |pat| > |s| then None
    else if s[from..from + |pat|] == pat then Some(from)
    else FindFrom(s, pat, from + 1)
  }

  /** `s.find(pat)`, as an option. */
  function Find(s: string, pat: string): (r: Option<nat>)
    ensures r.Some? ==> OccursAt(s, pat, r.value)
  {
    FindFrom(s, pat, 0)
  }

  /** `FindFrom` finds the first occurrence at or after `from`, and none
      means there is none. */
  lemma {:induction false} FindFromSpec(s: string, pat: string, from: nat)
    ensures var r := FindFrom(s, pat, from);
            (r.Some? ==> forall j: nat :: from <= j < r.value ==> !OccursAt(s, pat, j))
            && (r.None? ==> forall j: nat :: from <= j ==> !OccursAt(s, pat, j))
    decreases |s| - from
  {
    if from + |pat| <= |s| && s[from..from + |pat|] != pat {
      FindFromSpec(s, pat, from + 1);
    }
  }

  /** `s.find(pat)` is the first occurrence, and there is none exactly when
      `pat` does not occur. */
  lemma FindSpec(s: string, pat: string)
    ensures var r := Find(s, pat);
            (r.Some? ==> forall j: nat :: j < r.value ==> !OccursAt(s, pat, j))
            && (r.None? <==> !Contains(s, pat))
  {
    FindFromSpec(s, pat, 0);
  }

  predicate NoChar(s: string, ch: char) { forall i :: 0 <= i < |s| ==> s[i] != ch }

  /** The first occurrence of a single character. */
  lemma FindChar(s: string, ch: char, i: nat)
    requires i < |s| && s[i] == ch && NoChar(s[..i], ch)
    ensures Find(s, [ch]) == Some(i)
  {
    FindSpec(s, [ch]);
    assert OccursAt(s, [ch], i) by { assert s[i..i + 1] == [ch]; }
    forall j: nat | j < i ensures !OccursAt(s, [ch], j) {
      assert s[..i][j] == s[j];
      assert s[j..j + 1] == [s[j]];
    }
  }

  /** A character that does not occur is not found. */
  lemma FindCharNone(s: string, ch: char)
    requires NoChar(s, ch)
    ensures Find(s, [ch]) == None
  {
    FindSpec(s, [ch]);
    forall j: nat | j <= |s| ensures !OccursAt(s, [ch], j) {
      if j < |s| { assert s[j..j + 1] == [s[j]]; }
    }
  }

  // ------------------------------------------------------------ split(sep)

  /** `s.split(sep)` for a non-empty separator (Python raises on an empty one). */
  function SplitOn(s: string, sep: string): (parts: seq<string>)
    requires |sep| > 0
    ensures |parts| >= 1
    decreases |s|
  {
    match Find(s, sep)
    case None => [s]
    case Some(i) => [s[..i]] + SplitOn(s[i + |sep|..], sep)
  }

  /** The string around an occurrence of `sep` at `i`. */
  lemma Around(s: string, sep: string, i: nat)
    requires OccursAt(s, sep, i)
    ensures s == s[..i] + sep + s[i + |sep|..]
  {
    assert s == s[..i] + s[i..i + |sep|] + s[i + |sep|..];
  }

  /** One step of `s.split(sep)` at the first occurrence `i`. */
  lemma SplitOnSome(s: string, sep: string, i: nat)
    requires |sep| > 0 && Find(s, sep) == Some(i)
    ensures i + |sep| <= |s|
    ensures SplitOn(s, sep) == [s[..i]] + SplitOn(s[i + |sep|..], sep)
  {
  }

  lemma JoinCons(h: string, tail: seq<string>, sep: string)
    requires |tail| > 0
    ensures Join([h] + tail, sep) == h + sep + Join(tail, sep)
  {
    assert ([h] + tail)[1..] == tail;
  }

  /** Joining the pieces with the separator gives back the string. */
  lemma {:induction false} JoinSplitOn(s: string, sep: string)
    requires |sep| > 0
    ensures Join(SplitOn(s, sep), sep) == s
    decreases |s|
  {
    match Find(s, sep)
    case None =>
    case Some(i) =>
      var rest := s[i + |sep|..];
      SplitOnSome(s, sep, i);
      JoinSplitOn(rest, sep);
      JoinCons(s[..i], SplitOn(rest, sep), sep);
      Around(s, sep, i);
  }

  /** No piece of `s.split(sep)` contains the separator. */
  lemma {:induction false} SplitOnPiecesFree(s: string, sep: string)
    requires |sep| > 0
    ensures forall k :: 0 <= k < |SplitOn(s, sep)| ==> !Contains(SplitOn(s, sep)[k], sep)
    decreases |s|
  {
    FindSpec(s, sep);
    match Find(s, sep)
    case None =>
    case Some(i) =>
      var rest := s[i + |sep|..];
      SplitOnSome(s, sep, i);
      SplitOnPiecesFree(rest, sep);
      var head := s[..i];
      forall j: nat | j <= |head| ensures !OccursAt(head, sep, j) {
        if j + |sep| <= |head| {
          assert head[j..j + |sep|] == s[j..j + |sep|];
          assert !OccursAt(s, sep, j);
        }
      }
  }

  /** For a one-character separator that occurs in none of the parts,
      splitting the joined string recovers the parts. */
  lemma {:induction false} SplitOnJoin(parts: seq<string>, sep: string)
    requires |sep| == 1 && |parts| > 0
    requires forall k :: 0 <= k < |parts| ==> !Contains(parts[k], sep)
    ensures SplitOn(Join(parts, sep), sep) == parts
  {
    if |parts| > 1 {
      var p := parts[0];
      var rest := Join(parts[1..], sep);
      var s := p + sep + rest;
      assert Join(parts, sep) == s;
      assert OccursAt(s, sep, |p|) by { assert s[|p|..|p| + 1] == sep; }
      forall j: nat | j < |p| ensures !OccursAt(s, sep, j) {
        assert s[j..j + 1] == p[j..j + 1];
        assert !OccursAt(p, sep, j);
      }
      FindSpec(s, sep);
      assert Find(s, sep) == Some(|p|);
      assert s[..|p|] == p;
      assert s[|p| + 1..] == rest;
      SplitOnJoin(parts[1..], sep);
    }
  }

  /** With a longer separator the round trip can fail even though no part
      contains the separator: an occurrence may straddle a boundary. */
  lemma SplitOnJoinStraddle()
    ensures Join(["a-", "b"], "--") == "a---b"
    ensures SplitOn("a---b", "--") == ["a", "-b"]
  {
    var s := "a---b";
    assert Find(s, "--") == Some(1) by {
      assert s[1..3] == "--";
      assert FindFrom(s, "--", 1) == Some(1);
      assert s[0..2] == "a-" && "a-"[0] != "--"[0];
      assert FindFrom(s, "--", 0) == FindFrom(s, "--", 1);
    }
    assert s[..1] == "a" && s[3..] == "-b";
    var t := "-b";
    assert Find(t, "--") == None by {
      assert FindFrom(t, "--", 1) == None;
      assert t[0..2] == t && t[1] != "--"[1];
      assert FindFrom(t, "--", 0) == FindFrom(t, "--", 1);
    }
  }

  /** `s.split(sep, maxsplit)`: at most `maxsplit` cuts, the rest of the
      string stays in the last piece. */
  function SplitOnN(s: string, sep: string, maxsplit: nat): (parts: seq<string>)
    requires |sep| > 0
    ensures |parts| >= 1
    decreases maxsplit
  {
    if maxsplit == 0 then [s]
    else match Find(s, sep)
      case None => [s]
      case Some(i) => [s[..i]] + SplitOnN(s[i + |sep|..], sep, maxsplit - 1)
  }

  /** A cut limit of at least (pieces - 1) truncates nothing. */
  lemma {:induction false} SplitOnNNoTruncation(s: string, sep: string, maxsplit: nat)
    requires |sep| > 0
    requires |SplitOn(s, sep)| <= maxsplit + 1
    ensures SplitOnN(s, sep, maxsplit) == SplitOn(s, sep)
    decreases maxsplit
  {
    match Find(s, sep)
    case None =>
    case Some(i) =>
      SplitOnNNoTruncation(s[i + |sep|..], sep, maxsplit - 1);
  }

  /** The last piece of `s.split(sep)` is what follows the last separator:
      all of `s` when there is one piece, and otherwise `s` is some prefix,
      the separator and the last piece. */
  lemma {:induction false} SplitOnLast(s: string, sep: string) returns (p: string)
    requires |sep| > 0
    ensures var ps := SplitOn(s, sep);
            (|ps| == 1 ==> ps[0] == s) && (|ps| >= 2 ==> s == p + sep + ps[|ps| - 1])
    decreases |s|
  {
    p := "";
    match Find(s, sep)
    case None =>
      assert SplitOn(s, sep) == [s];
    case Some(i) =>
      var rest := s[i + |sep|..];
      SplitOnSome(s, sep, i);
      var q := SplitOnLast(rest, sep);
      p := LastPieceStep(s[..i], sep, rest, q, SplitOn(rest, sep));
      Around(s, sep, i);
  }

  /** The step of `SplitOnLast`, on plain values: `s` is `head + sep + rest`
      and its pieces are `[head]` followed by those of `rest`. */
  lemma LastPieceStep(head: string, sep: string, rest: string, q: string, tail: seq<string>) returns (p: string)
    requires |tail| >= 1
    requires (|tail| == 1 ==> tail[0] == rest) && (|tail| >= 2 ==> rest == q + sep + tail[|tail| - 1])
    ensures var ps := [head] + tail;
            |ps| >= 2 && head + sep + rest == p + sep + ps[|ps| - 1]
  {
    var last := tail[|tail| - 1];
    assert ([head] + tail)[|tail|] == last;
    if |tail| >= 2 {
      p := head + sep + q;
      assert head + sep + (q + sep + last) == (head + sep + q) + sep + last;
    } else {
      p := head;
    }
  }

  /** A string that contains the separator splits into at least two pieces. */
  lemma SplitOnContains(s: string, sep: string)
    requires |sep| > 0
    ensures |SplitOn(s, sep)| >= 2 <==> Contains(s, sep)
  {
    FindSpec(s, sep);
  }

  // --------------------------------------------------------------- replace

  /** `s.replace("", r)`: `r` is inserted before every character and at the end. */
  function ReplaceEmpty(s: string, r: string): string
  {
    if s == [] then r else r + [s[0]] + ReplaceEmpty(s[1..], r)
  }

  /** `s.replace(f, r)`. */
  function Replace(s: string, f: string, r: string): string
  {
    if f == [] then ReplaceEmpty(s, r) else ReplaceEach(s, f, r)
  }

  /** `s.replace(f, r)` for a non-empty `f`: left-to-right, non-overlapping
      occurrences of `f`. */
  function ReplaceEach(s: string, f: string, r: string): string
    requires |f| > 0
    decreases |s|
  {
    match Find(s, f)
    case None => s
    case Some(i) => s[..i] + r + ReplaceEach(s[i + |f|..], f, r)
  }

  /** One step of `s.replace(f, r)` at the first occurrence `i`. */
  lemma ReplaceSome(s: string, f: string, r: string, i: nat)
    requires |f| > 0 && Find(s, f) == Some(i)
    ensures i + |f| <= |s|
    ensures Replace(s, f, r) == s[..i] + r + Replace(s[i + |f|..], f, r)
  {
  }

  /** Replacing is splitting on `f` and joining with `r`. */
  lemma {:induction false} ReplaceIsSplitJoin(s: string, f: string, r: string)
    requires |f| > 0
    ensures Replace(s, f, r) == Join(SplitOn(s, f), r)
    decreases |s|
  {
    match Find(s, f)
    case None =>
    case Some(i) =>
      var rest := s[i + |f|..];
      ReplaceSome(s, f, r, i);
      SplitOnSome(s, f, i);
      ReplaceIsSplitJoin(rest, f, r);
      JoinCons(s[..i], SplitOn(rest, f), r);
  }

  lemma {:induction false} ReplaceEmptyNothing(s: string)
    ensures ReplaceEmpty(s, "") == s
  {
    if s != [] {
      ReplaceEmptyNothing(s[1..]);
    }
  }

  /** Replacing a text by itself changes nothing. */
  lemma ReplaceSame(s: string, f: string)
    ensures Replace(s, f, f) == s
  {
    if f == [] {
      ReplaceEmptyNothing(s);
    } else {
      ReplaceIsSplitJoin(s, f, f);
      JoinSplitOn(s, f);
    }
  }

  /** A text that does not occur is not replaced. */
  lemma ReplaceAbsent(s: string, f: string, r: string)
    requires |f| > 0 && !Contains(s, f)
    ensures Replace(s, f, r) == s
  {
  }

  /** With k = (pieces - 1) occurrences replaced, the length changes by
      k * (|r| - |f|). */
  lemma ReplaceLength(s: string, f: string, r: string)
    requires |f| > 0
    ensures |Replace(s, f, r)| == |s| + (|SplitOn(s, f)| - 1) * (|r| - |f|)
  {
    var parts := SplitOn(s, f);
    var k := |parts| - 1;
    ReplaceIsSplitJoin(s, f, r);
    JoinSplitOn(s, f);
    JoinLength(parts, r);
    JoinLength(parts, f);
    Rescale(|Replace(s, f, r)|, |s|, SumLen(parts), k, |r|, |f|);
  }

  lemma Rescale(x: int, y: int, sum: int, k: int, a: int, b: int)
    requires x == sum + k * a && y == sum + k * b
    ensures x == y + k * (a - b)
  {
  }

  // ---------------------------------------------------------------- filter

  /** The characters of `s` that satisfy `keep`, in their original order. */
  function Filter(s: string, keep: char -> bool): (r: string)
    ensures |r| <= |s|
  {
    if s == [] then []
    else if keep(s[0]) then [s[0]] + Filter(s[1..], keep)
    else Filter(s[1..], keep)
  }

  /** Every character that filtering keeps passes the test. */
  lemma {:induction false} FilterKeeps(s: string, keep: char -> bool)
    ensures forall i :: 0 <= i < |Filter(s, keep)| ==> keep(Filter(s, keep)[i])
  {
    if s != [] {
      FilterKeeps(s[1..], keep);
      if keep(s[0]) {
        var r := Filter(s, keep);
        assert r == [s[0]] + Filter(s[1..], keep);
        forall i | 0 <= i < |r| ensures keep(r[i]) {
          if i > 0 {
            assert r[i] == Filter(s[1..], keep)[i - 1];
          }
        }
      }
    }
  }

  /** `a` can be obtained from `b` by deleting characters. */
  predicate IsSubsequence(a: string, b: string)
    decreases |b|
  {
    if a == [] then true
    else if b == [] then false
    else if a[0] == b[0] then IsSubsequence(a[1..], b[1..])
    else IsSubsequence(a, b[1..])
  }

  lemma {:induction false} FilterSubsequence(s: string, keep: char -> bool)
    ensures IsSubsequence(Filter(s, keep), s)
  {
    if s != [] {
      FilterSubsequence(s[1..], keep);
      FilterKeeps(s[1..], keep);
    }
  }

  /** Filtering keeps every character that passes, as often as it occurs,
      and drops every other one. */
  lemma {:induction false} FilterCounts(s: string, keep: char -> bool)
    ensures forall c :: multiset(Filter(s, keep))[c] == if keep(c) then multiset(s)[c] else 0
  {
    if s != [] {
      FilterCounts(s[1..], keep);
      assert s == [s[0]] + s[1..];
      assert multiset(s) == multiset([s[0]]) + multiset(s[1..]);
    }
  }

  lemma {:induction false} FilterAllKept(s: string, keep: char -> bool)
    requires forall i :: 0 <= i < |s| ==> keep(s[i])
    ensures Filter(s, keep) == s
  {
    if s != [] {
      FilterAllKept(s[1..], keep);
    }
  }

  /** Filtering twice with the same test is filtering once. */
  lemma FilterIdempotent(s: string, keep: char -> bool)
    ensures Filter(Filter(s, keep), keep) == Filter(s, keep)
  {
    FilterKeeps(s, keep);
    FilterAllKept(Filter(s, keep), keep);
  }

  lemma {:induction false} FilterAppend(a: string, b: string, keep: char -> bool)
    ensures Filter(a + b, keep) == Filter(a, keep) + Filter(b, keep)
  {
    if a != [] {
      assert (a + b)[0] == a[0];
      assert (a + b)[1..] == a[1..] + b;
      FilterAppend(a[1..], b, keep);
    } else {
      assert a + b == b;
    }
  }

  /** The test "is not one of `chars`". */
  function NotIn(chars: string): char -> bool
  {
    x => x !in chars
  }

  /** Filters with tests that agree on every character give the same string. */
  lemma {:induction false} FilterEquiv(s: string, p: char -> bool, q: char -> bool)
    requires forall x :: p(x) == q(x)
    ensures Filter(s, p) == Filter(s, q)
  {
    if s != [] {
      FilterEquiv(s[1..], p, q);
    }
  }

  /** Dropping `chars` and then `ch` is dropping `chars + [ch]`. */
  lemma {:induction false} FilterNotInAppend(s: string, chars: string, ch: char)
    ensures Filter(Filter(s, NotIn(chars)), Other(ch)) == Filter(s, NotIn(chars + [ch]))
  {
    if s != [] {
      FilterNotInAppend(s[1..], chars, ch);
    }
  }

  /** The test "is not `c`". */
  function Other(c: char): char -> bool
  {
    x => x != c
  }

  lemma NoCharFilter(s: string, c: char)
    requires NoChar(s, c)
    ensures Filter(s, Other(c)) == s
  {
    FilterAllKept(s, Other(c));
  }

  lemma NoCharBeforeFind(s: string, c: char, i: nat)
    requires Find(s, [c]) == Some(i)
    ensures NoChar(s[..i], c)
  {
    FindSpec(s, [c]);
    forall k | 0 <= k < i ensures s[..i][k] != c {
      assert s[k..k + 1] == [s[k]];
      assert !OccursAt(s, [c], k);
    }
  }

  lemma NoCharNotFound(s: string, c: char)
    requires Find(s, [c]) == None
    ensures NoChar(s, c)
  {
    FindSpec(s, [c]);
    forall k | 0 <= k < |s| ensures s[k] != c {
      assert s[k..k + 1] == [s[k]];
      assert !OccursAt(s, [c], k);
    }
  }

  lemma FilterAroundChar(s: string, c: char, i: nat)
    requires i < |s| && s[i] == c && NoChar(s[..i], c)
    ensures Filter(s, Other(c)) == s[..i] + Filter(s[i + 1..], Other(c))
  {
    assert s == s[..i] + [c] + s[i + 1..];
    FilterSkip(s[..i], c, s[i + 1..]);
  }

  lemma FilterSkip(head: string, c: char, rest: string)
    requires NoChar(head, c)
    ensures Filter(head + [c] + rest, Other(c)) == head + Filter(rest, Other(c))
  {
    var keep := Other(c);
    calc {
      Filter(head + [c] + rest, keep);
    ==  { FilterAppend(head + [c], rest, keep); }
      Filter(head + [c], keep) + Filter(rest, keep);
    ==  { FilterAppend(head, [c], keep); }
      Filter(head, keep) + Filter([c], keep) + Filter(rest, keep);
    ==  { NoCharFilter(head, c); assert [c][1..] == []; }
      head + [] + Filter(rest, keep);
    ==  { assert head + [] == head; }
      head + Filter(rest, keep);
    }
  }

  /** Removing every occurrence of one character with `replace(c, '')` is
      filtering that character out. */
  lemma {:induction false} ReplaceCharIsFilter(s: string, c: char)
    ensures Replace(s, [c], "") == Filter(s, Other(c))
    decreases |s|
  {
    match Find(s, [c])
    case None =>
      NoCharNotFound(s, c);
      NoCharFilter(s, c);
    case Some(i) =>
      var head, rest := s[..i], s[i + 1..];
      ReplaceSome(s, [c], "", i);
      assert s[i..i + 1] == [c];
      NoCharBeforeFind(s, c, i);
      FilterAroundChar(s, c, i);
      ReplaceCharIsFilter(rest, c);
      assert head + "" == head;
  }

  // ------------------------------------------------------ decimal integers

  function DigitChar(d: nat): char
    requires d < 10
  {
    "0123456789"[d]
  }

  /** `str(n)` for a natural number. */
  function NatToString(n: nat): (s: string)
    ensures |s| >= 1
    ensures n >= 10 ==> |s| >= 2
    ensures forall i :: 0 <= i < |s| ==> IsAsciiDigit(s[i])
  {
    if n < 10 then [DigitChar(n)] else NatToString(n / 10) + [DigitChar(n % 10)]
  }

  /** `str(i)` for an integer. */
  function IntToString(i: int): string
  {
    if i < 0 then "-" + NatToString(-i) else NatToString(i)
  }

  lemma DigitCharInjective(a: nat, b: nat)
    requires a < 10 && b < 10 && DigitChar(a) == DigitChar(b)
    ensures a == b
  {
  }

  /** Different numbers are rendered differently. */
  lemma {:induction false} NatToStringInjective(a: nat, b: nat)
    requires NatToString(a) == NatToString(b)
    ensures a == b
  {
    var s := NatToString(a);
    if a < 10 && b < 10 {
      DigitCharInjective(a, b);
    } else if a >= 10 && b >= 10 {
      assert s[|s| - 1] == DigitChar(a % 10) == DigitChar(b % 10);
      DigitCharInjective(a % 10, b % 10);
      assert NatToString(a / 10) == s[..|s| - 1] == NatToString(b / 10);
      NatToStringInjective(a / 10, b / 10);
    }
  }
}
