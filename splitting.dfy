/** Column splitting (src/operations/splitting.py; operations/splitting.py is
    the same code): the surname split and the split on a delimiter. */
module Splitting {
  import opened PyStr
  import opened Cells
  import opened Tables
  import opened ColumnNames

  // ------------------------------------------------------ words and strip

  lemma {:induction false} WordLenAppendSpace(x: string, sp: string)
    requires AllSpace(sp)
    ensures WordLen(x + sp) == WordLen(x)
  {
    if x == [] {
      assert x + sp == sp;
    } else if !IsSpace(x[0]) {
      assert (x + sp)[1..] == x[1..] + sp;
      WordLenAppendSpace(x[1..], sp);
    }
  }

  lemma {:induction false} WordsAllSpace(s: string)
    requires AllSpace(s)
    ensures Words(s) == []
  {
    if s != [] {
      WordsAllSpace(s[1..]);
    }
  }

  /** Trailing whitespace does not change the words. */
  lemma {:induction false} WordsAppendSpace(x: string, sp: string)
    requires AllSpace(sp)
    ensures Words(x + sp) == Words(x)
    decreases |x|
  {
    if x == [] {
      assert x + sp == sp;
      WordsAllSpace(sp);
    } else if IsSpace(x[0]) {
      assert (x + sp)[1..] == x[1..] + sp;
      WordsAppendSpace(x[1..], sp);
    } else {
      var n := WordLen(x);
      WordLenAppendSpace(x, sp);
      assert (x + sp)[..n] == x[..n];
      assert (x + sp)[n..] == x[n..] + sp;
      WordsAppendSpace(x[n..], sp);
    }
  }

  /** Leading whitespace does not change the words. */
  lemma {:induction false} WordsPrependSpace(sp: string, x: string)
    requires AllSpace(sp)
    ensures Words(sp + x) == Words(x)
    decreases |sp|
  {
    if sp == [] {
      assert sp + x == x;
    } else {
      assert (sp + x)[1..] == sp[1..] + x;
      WordsPrependSpace(sp[1..], x);
    }
  }

  /** Whitespace around a string does not change its words. */
  lemma WordsAround(x: string, m: string, y: string)
    requires AllSpace(x) && AllSpace(y)
    ensures Words(x + m + y) == Words(m)
  {
    assert x + m + y == x + (m + y);
    WordsPrependSpace(x, m + y);
    WordsAppendSpace(m, y);
  }

  lemma Slices(s: string, i: nat, j: nat)
    requires i <= j <= |s|
    ensures s[..i] + s[i..j] + s[j..] == s
  {
  }

  /** Stripping does not change the words. */
  lemma WordsStrip(s: string)
    ensures Words(Strip(s)) == Words(s)
  {
    var r := Strip(s);
    StripSpec(s);
    var i :| 0 <= i <= |s| - |r| && s[i..i + |r|] == r && AllSpace(s[..i]) && AllSpace(s[i + |r|..]);
    Slices(s, i, i + |r|);
    WordsAround(s[..i], r, s[i + |r|..]);
  }

  // -------------------------------------------------------- split_surname

  /** `split_surname(full_name)`. */
  function SplitSurname(c: Cell): (string, string)
  {
    SplitName(Str(c))
  }

  function SplitName(s: string): (string, string)
  {
    var name := Strip(s);
    var parts := Words(name);
    if |parts| > 1 then (Join(parts[..|parts| - 1], " "), parts[|parts| - 1]) else (name, "")
  }

  /** With two or more words the last one is the surname and the others,
      joined by single spaces, the name, so that no word is lost; otherwise
      the stripped value is the name and the surname is empty. */
  lemma SplitSurnameSpec(c: Cell)
    ensures var ws := Words(Str(c));
            |ws| >= 2 ==> SplitSurname(c).0 == Join(ws[..|ws| - 1], " ") && SplitSurname(c).1 == ws[|ws| - 1]
                          && Words(SplitSurname(c).0) + [SplitSurname(c).1] == ws
    ensures |Words(Str(c))| < 2 ==> SplitSurname(c) == (Strip(Str(c)), "")
  {
    SplitNameSpec(Str(c));
  }

  lemma SplitNameSpec(s: string)
    ensures var ws := Words(s);
            |ws| >= 2 ==> SplitName(s).0 == Join(ws[..|ws| - 1], " ") && SplitName(s).1 == ws[|ws| - 1]
                          && Words(SplitName(s).0) + [SplitName(s).1] == ws
    ensures |Words(s)| < 2 ==> SplitName(s) == (Strip(s), "")
  {
    var ws := Words(s);
    WordsStrip(s);
    if |ws| >= 2 {
      var front := ws[..|ws| - 1];
      assert forall k :: 0 <= k < |front| ==> front[k] == ws[k];
      WordsOfJoin(front);
      ButLast(ws);
    }
  }

  lemma ButLast<T>(xs: seq<T>)
    requires |xs| > 0
    ensures xs[..|xs| - 1] + [xs[|xs| - 1]] == xs
  {
  }

  function NameParts(col: seq<Cell>): seq<Cell>
  {
    MapCells(col, c => Text(SplitSurname(c).0))
  }

  function Surnames(col: seq<Cell>): seq<Cell>
  {
    MapCells(col, c => Text(SplitSurname(c).1))
  }

  lemma InsertKeepsDistinct(names: seq<string>, i: nat, name: string)
    requires DistinctNames(names) && i <= |names| && name !in names
    ensures DistinctNames(names[..i] + [name] + names[i..])
  {
    var r := names[..i] + [name] + names[i..];
    forall a, b | 0 <= a < b < |r| ensures r[a] != r[b] {
      if a < i && b > i { assert r[a] == names[a] && r[b] == names[b - 1]; }
      else if a > i { assert r[a] == names[a - 1] && r[b] == names[b - 1]; }
      else if a < i && b < i { assert r[a] == names[a] && r[b] == names[b]; }
      else if a == i { assert r[b] == names[b - 1]; }
      else { assert r[a] == names[a]; }
    }
  }

  /** What `apply_split_surname(dataframe, col)` returns: a missing column
      is an error and the input comes back; otherwise `col` gets the name
      parts and the surnames go into a new column right after it, named
      `{col}_Surname` or the first free `{col}_Surname_{k}`. */
  function SurnameReply(t: Table, col: string): Reply
    requires t.Valid()
  {
    if col !in t.names then Reply(t, Error, Msg("column_not_found", [col]))
    else
      var j := IndexOf(t.names, col);
      var name := UniqueName(col + "_Surname", NameSet(t.names));
      var named := SetColumn(t, col, NameParts(t.cols[j]));
      Reply(InsertColumn(named, j + 1, name, Surnames(t.cols[j])), Success, Msg("surname_split_success", [col, name]))
  }

  /** `apply_split_surname` with its naming loop. */
  method ApplySplitSurname(t: Table, col: string) returns (r: Reply)
    requires t.Valid()
    ensures r == SurnameReply(t, col)
  {
    if col !in t.names {
      return Reply(t, Error, Msg("column_not_found", [col]));
    }
    var name := FreshName(col + "_Surname", t.names);
    var j := IndexOf(t.names, col);
    var named := SetColumn(t, col, NameParts(t.cols[j]));
    r := Reply(InsertColumn(named, j + 1, name, Surnames(t.cols[j])), Success, Msg("surname_split_success", [col, name]));
  }

  /** On a frame with distinct column names the split inserts one new,
      distinct name right after `col`; `col` holds the name parts, the new
      column the surnames, and every other column keeps its cells and its
      order. */
  lemma SurnameReplySpec(t: Table, col: string)
    requires t.Valid() && DistinctNames(t.names) && col in t.names
    ensures var r := SurnameReply(t, col);
            var j := IndexOf(t.names, col);
            var name := UniqueName(col + "_Surname", NameSet(t.names));
            r.kind == Success && r.msg == Msg("surname_split_success", [col, name])
            && r.table.Valid() && r.table.rows == t.rows && DistinctNames(r.table.names)
            && r.table.names == t.names[..j + 1] + [name] + t.names[j + 1..]
            && r.table.cols[j] == NameParts(t.cols[j]) && r.table.cols[j + 1] == Surnames(t.cols[j])
            && (forall k :: 0 <= k < j ==> r.table.cols[k] == t.cols[k])
            && (forall k :: j < k < |t.cols| ==> r.table.cols[k + 1] == t.cols[k])
  {
    var j := IndexOf(t.names, col);
    var name := UniqueName(col + "_Surname", NameSet(t.names));
    assert name !in t.names by {
      UniqueNameSpec(col + "_Surname", NameSet(t.names));
    }
    var r := SurnameReply(t, col);
    assert r.table == InsertColumn(SetColumn(t, col, NameParts(t.cols[j])), j + 1, name, Surnames(t.cols[j]));
    ReplaceAndInsert(t, col, name, NameParts(t.cols[j]), Surnames(t.cols[j]));
  }

  /** Replacing column `col` by `a` and inserting `b` under a new name right
      after it. */
  lemma ReplaceAndInsert(t: Table, col: string, name: string, a: seq<Cell>, b: seq<Cell>)
    requires t.Valid() && DistinctNames(t.names) && col in t.names && name !in t.names
    requires |a| == t.rows && |b| == t.rows
    ensures var j := IndexOf(t.names, col);
            var r := InsertColumn(SetColumn(t, col, a), j + 1, name, b);
            r.Valid() && r.rows == t.rows && DistinctNames(r.names)
            && r.names == t.names[..j + 1] + [name] + t.names[j + 1..]
            && r.cols[j] == a && r.cols[j + 1] == b
            && (forall k :: 0 <= k < j ==> r.cols[k] == t.cols[k])
            && (forall k :: j < k < |t.cols| ==> r.cols[k + 1] == t.cols[k])
  {
    var j := IndexOf(t.names, col);
    InsertKeepsDistinct(t.names, j + 1, name);
    var named := SetColumn(t, col, a);
    assert named.names == t.names && named.cols == t.cols[j := a];
    var r := InsertColumn(named, j + 1, name, b);
    assert r.cols == named.cols[..j + 1] + [b] + named.cols[j + 1..];
    forall k | 0 <= k < j ensures r.cols[k] == t.cols[k] {
      assert r.cols[k] == named.cols[k];
    }
    forall k | j < k < |t.cols| ensures r.cols[k + 1] == t.cols[k] {
      assert r.cols[k + 1] == named.cols[k];
    }
  }

  // -------------------------------------------------- split by delimiter

  /** `dataframe[col].astype(str)`. */
  function Strs(col: seq<Cell>): (r: seq<string>)
    ensures |r| == |col| && forall i :: 0 <= i < |col| ==> r[i] == Str(col[i])
  {
    seq(|col|, i requires 0 <= i < |col| => Str(col[i]))
  }

  predicate AnyContains(strs: seq<string>, d: string)
  {
    exists i :: 0 <= i < |strs| && Contains(strs[i], d)
  }

  /** `str.split(d).str.len().max()`. */
  function MaxPieces(strs: seq<string>, d: string): (m: nat)
    requires |d| > 0
    ensures forall i :: 0 <= i < |strs| ==> |SplitOn(strs[i], d)| <= m
    ensures |strs| > 0 ==> exists i :: 0 <= i < |strs| && m == |SplitOn(strs[i], d)|
    ensures |strs| > 0 ==> m >= 1
  {
    if strs == [] then 0
    else
      var rest := MaxPieces(strs[1..], d);
      var here := |SplitOn(strs[0], d)|;
      if here >= rest then here else rest
  }

  /** `f"{col}_part{i+1}"`. */
  function PartBase(col: string, i: nat): string
  {
    col + "_part" + NatToString(i + 1)
  }

  /** The names the naming loop chooses for m parts: each base name made
      unique against the existing columns and the names chosen before it. */
  function PartNamesFor(col: string, m: nat, existing: seq<string>): (names: seq<string>)
    ensures |names| == m
  {
    if m == 0 then []
    else
      var prev := PartNamesFor(col, m - 1, existing);
      prev + [UniqueName(PartBase(col, m - 1), NameSet(existing + prev))]
  }

  /** The chosen names are pairwise different and none is an existing
      column name. */
  lemma {:induction false} PartNamesForSpec(col: string, m: nat, existing: seq<string>)
    ensures DistinctNames(PartNamesFor(col, m, existing))
    ensures forall k :: 0 <= k < m ==> PartNamesFor(col, m, existing)[k] !in existing
  {
    if m > 0 {
      var prev := PartNamesFor(col, m - 1, existing);
      PartNamesForSpec(col, m - 1, existing);
      var n := UniqueName(PartBase(col, m - 1), NameSet(existing + prev));
      UniqueNameSpec(PartBase(col, m - 1), NameSet(existing + prev));
      assert n !in existing + prev;
      var names := prev + [n];
      assert names == PartNamesFor(col, m, existing);
      forall a, b | 0 <= a < b < m ensures names[a] != names[b] {
        if b < m - 1 { assert names[a] == prev[a] && names[b] == prev[b]; }
        else { assert names[a] == prev[a] && names[a] in existing + prev; }
      }
      forall k | 0 <= k < m ensures names[k] !in existing {
        if k < m - 1 { assert names[k] == prev[k]; }
      }
    }
  }

  /** The naming loop. */
  method PartNames(col: string, m: nat, existing: seq<string>) returns (names: seq<string>)
    ensures names == PartNamesFor(col, m, existing)
  {
    names := [];
    for i := 0 to m
      invariant names == PartNamesFor(col, i, existing)
    {
      var n := FreshName(PartBase(col, i), existing + names);
      names := names + [n];
    }
  }

  /** One cell of a part column: piece p of the split, or the `None` that
      `expand=True` puts into rows with fewer pieces. */
  function PieceCell(pieces: seq<string>, p: nat): Cell
  {
    if p < |pieces| then Text(pieces[p]) else PyNone
  }

  /** Part column p of `str.split(d, expand=True, n=m-1)`. */
  function PartColumn(strs: seq<string>, d: string, m: nat, p: nat): (c: seq<Cell>)
    requires |d| > 0 && m >= 1
    ensures |c| == |strs|
  {
    seq(|strs|, i requires 0 <= i < |strs| => PieceCell(SplitOnN(strs[i], d, m - 1), p))
  }

  function PartColumns(strs: seq<string>, d: string, m: nat): (cs: seq<seq<Cell>>)
    requires |d| > 0 && m >= 1
    ensures |cs| == m && forall p :: 0 <= p < m ==> cs[p] == PartColumn(strs, d, m, p)
  {
    seq(m, p requires 0 <= p < m => PartColumn(strs, d, m, p))
  }

  /** With n = m - 1 no row is cut short: part p of every row holds piece p
      of the full split, and rows with fewer pieces get `None`. */
  lemma PartColumnNotTruncated(strs: seq<string>, d: string, m: nat, p: nat, i: nat)
    requires |d| > 0 && m >= 1 && i < |strs|
    requires forall k :: 0 <= k < |strs| ==> |SplitOn(strs[k], d)| <= m
    ensures PartColumn(strs, d, m, p)[i] == PieceCell(SplitOn(strs[i], d), p)
  {
    SplitOnNNoTruncation(strs[i], d, m - 1);
  }

  lemma ReplaceKeepsDistinct(names: seq<string>, j: nat, added: seq<string>)
    requires DistinctNames(names) && DistinctNames(added) && j < |names|
    requires forall k :: 0 <= k < |added| ==> added[k] !in names
    ensures DistinctNames(names[..j] + added + names[j + 1..])
  {
    var r := names[..j] + added + names[j + 1..];
    var f := |added|;
    forall a, b | 0 <= a < b < |r| ensures r[a] != r[b] {
      if b < j { assert r[a] == names[a] && r[b] == names[b]; }
      else if a < j && b < j + f { assert r[a] == names[a] && r[b] == added[b - j]; }
      else if a < j { assert r[a] == names[a] && r[b] == names[b - f + 1]; }
      else if b < j + f { assert r[a] == added[a - j] && r[b] == added[b - j]; }
      else if a < j + f { assert r[a] == added[a - j] && r[b] == names[b - f + 1]; }
      else { assert r[a] == names[a - f + 1] && r[b] == names[b - f + 1]; }
    }
  }

  /** What `apply_split_by_delimiter(dataframe, col, delimiter)` returns
      for the one-character delimiters the application passes: Error for a
      missing column, Warning when no row contains the delimiter (both with
      the input frame); otherwise `col` is replaced, at its position, by as
      many part columns as the longest split has pieces. */
  function DelimiterReply(t: Table, col: string, d: string): Reply
    requires t.Valid() && |d| == 1
  {
    if col !in t.names then Reply(t, Error, Msg("column_not_found", [col]))
    else
      var j := IndexOf(t.names, col);
      var strs := Strs(t.cols[j]);
      if !AnyContains(strs, d) then Reply(t, Warning, Msg("split_warning_delimiter_not_found", [d, col]))
      else
        var m := MaxPieces(strs, d);
        var parts := PartNamesFor(col, m, t.names);
        Reply(Table(t.names[..j] + parts + t.names[j + 1..], t.cols[..j] + PartColumns(strs, d, m) + t.cols[j + 1..], t.rows),
              Success, Msg("split_success", [col, d, NatToString(m)]))
  }

  /** `apply_split_by_delimiter` with its naming loop. */
  method ApplySplitByDelimiter(t: Table, col: string, d: string) returns (r: Reply)
    requires t.Valid() && |d| == 1
    ensures r == DelimiterReply(t, col, d)
  {
    if col !in t.names {
      return Reply(t, Error, Msg("column_not_found", [col]));
    }
    var j := IndexOf(t.names, col);
    var strs := Strs(t.cols[j]);
    if !AnyContains(strs, d) {
      return Reply(t, Warning, Msg("split_warning_delimiter_not_found", [d, col]));
    }
    var m := MaxPieces(strs, d);
    var parts := PartNames(col, m, t.names);
    var table := Table(t.names[..j] + parts + t.names[j + 1..], t.cols[..j] + PartColumns(strs, d, m) + t.cols[j + 1..], t.rows);
    r := Reply(table, Success, Msg("split_success", [col, d, NatToString(m)]));
  }

  /** On a frame with distinct column names a successful split keeps the
      names distinct, puts the m part names where `col` was, keeps the rows,
      and every column has one cell per row. */
  lemma DelimiterReplySpec(t: Table, col: string, d: string)
    requires t.Valid() && DistinctNames(t.names) && |d| == 1
    requires col in t.names && AnyContains(Strs(Column(t, col)), d)
    ensures var r := DelimiterReply(t, col, d);
            var j := IndexOf(t.names, col);
            var m := MaxPieces(Strs(t.cols[j]), d);
            var parts := PartNamesFor(col, m, t.names);
            r.kind == Success && r.table.Valid() && r.table.rows == t.rows
            && DistinctNames(r.table.names) && |parts| == m >= 1
            && r.table.names == t.names[..j] + parts + t.names[j + 1..]
            && (forall k :: 0 <= k < m ==> parts[k] !in t.names)
  {
    var j := IndexOf(t.names, col);
    var strs := Strs(t.cols[j]);
    var m := MaxPieces(strs, d);
    var parts := PartNamesFor(col, m, t.names);
    PartNamesForSpec(col, m, t.names);
    ReplaceByMany(t, j, parts, PartColumns(strs, d, m));
  }

  /** Replacing the column at j by several new, distinct columns. */
  lemma ReplaceByMany(t: Table, j: nat, added: seq<string>, cs: seq<seq<Cell>>)
    requires t.Valid() && DistinctNames(t.names) && j < |t.names|
    requires DistinctNames(added) && forall k :: 0 <= k < |added| ==> added[k] !in t.names
    requires |cs| == |added| && forall k :: 0 <= k < |cs| ==> |cs[k]| == t.rows
    ensures var r := Table(t.names[..j] + added + t.names[j + 1..], t.cols[..j] + cs + t.cols[j + 1..], t.rows);
            r.Valid() && DistinctNames(r.names)
  {
    ReplaceKeepsDistinct(t.names, j, added);
    var all := t.cols[..j] + cs + t.cols[j + 1..];
    var m := |cs|;
    forall k | 0 <= k < |all| ensures |all[k]| == t.rows {
      if k < j { assert all[k] == t.cols[k]; }
      else if k < j + m { assert all[k] == cs[k - j]; }
      else { assert all[k] == t.cols[k - m + 1]; }
    }
  }

  /** The cells of the part columns, read through the full split: row i of
      part column p holds piece p of the row's value split on the
      delimiter, or `None` where the row has fewer pieces; and the
      pieces of a row, joined with the delimiter, give its value back. */
  lemma PartColumnsSpec(strs: seq<string>, d: string, p: nat, i: nat)
    requires |d| == 1 && |strs| > 0 && p < MaxPieces(strs, d) && i < |strs|
    ensures PartColumns(strs, d, MaxPieces(strs, d))[p][i] == PieceCell(SplitOn(strs[i], d), p)
    ensures p >= |SplitOn(strs[i], d)| ==> Str(PartColumns(strs, d, MaxPieces(strs, d))[p][i]) == "None"
    ensures Join(SplitOn(strs[i], d), d) == strs[i]
    ensures 1 <= |SplitOn(strs[i], d)| <= MaxPieces(strs, d)
  {
    PartColumnNotTruncated(strs, d, MaxPieces(strs, d), p, i);
    JoinSplitOn(strs[i], d);
  }
}
