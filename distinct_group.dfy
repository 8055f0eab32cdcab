/** Distinct-group encoding (src/operations/distinct_group.py): a new
    column numbering the distinct values of a column in sorted order,
    written into the caller's frame, and a preview of it on a copy of the
    first rows. */
module DistinctGroup {
  import opened PyStr
  import opened Cells
  import opened Tables
  import ColumnNames
  import opened Duplicates

  /** The order `factorize(sort=True)` sorts the distinct values by. It is a
      parameter: the relation must be a strict total order. */
  ghost predicate StrictTotalOrder(lt: (Key, Key) -> bool)
  {
    (forall a :: !lt(a, a))
    && (forall a, b, c :: lt(a, b) && lt(b, c) ==> lt(a, c))
    && (forall a, b :: a != b ==> lt(a, b) || lt(b, a))
  }

  /** The distinct non-missing values of a column (`uniques`). */
  function Uniques(ks: seq<Key>): set<Key>
  {
    set k | k in ks && k != KMissing
  }

  /** The distinct values sorted before k. */
  function Below(ks: seq<Key>, lt: (Key, Key) -> bool, k: Key): (b: set<Key>)
    ensures b <= Uniques(ks)
  {
    set u | u in Uniques(ks) && lt(u, k)
  }

  /** `codes + 1`: 0 for a missing value (factorize's -1), otherwise one more
      than the number of distinct values sorted before it. */
  function Code(ks: seq<Key>, lt: (Key, Key) -> bool, k: Key): int
  {
    if k == KMissing then 0 else 1 + |Below(ks, lt, k)|
  }

  function Codes(ks: seq<Key>, lt: (Key, Key) -> bool): (c: seq<Cell>)
    ensures |c| == |ks| && forall i :: 0 <= i < |ks| ==> c[i] == Int(Code(ks, lt, ks[i]))
  {
    seq(|ks|, i requires 0 <= i < |ks| => Int(Code(ks, lt, ks[i])))
  }

  /** `{val: idx + 1 for idx, val in enumerate(uniques)}`. */
  function ValueMapping(ks: seq<Key>, lt: (Key, Key) -> bool): (m: map<Key, int>)
    ensures m.Keys == Uniques(ks)
  {
    map k | k in Uniques(ks) :: Code(ks, lt, k)
  }

  /** The metadata the encoding returns. */
  datatype Metadata = Metadata(newColumn: string, valueMapping: map<Key, int>, uniqueValues: nat)

  lemma StrictSubsetCard<T>(a: set<T>, b: set<T>, x: T)
    requires a <= b && x in b && x !in a
    ensures |a| < |b|
  {
    var c := b - {x};
    assert a <= c;
    assert b == c + {x};
    SubsetCard(a, c);
  }

  lemma {:induction false} SubsetCard<T>(a: set<T>, b: set<T>)
    requires a <= b
    ensures |a| <= |b|
    decreases |b|
  {
    if a != {} {
      var y :| y in a;
      SubsetCard(a - {y}, b - {y});
    }
  }

  /** Non-missing values get codes 1 .. (number of distinct values); a
      value sorted before another gets the smaller code. */
  lemma CodeBounds(ks: seq<Key>, lt: (Key, Key) -> bool, k: Key)
    requires StrictTotalOrder(lt) && k in Uniques(ks)
    ensures 1 <= Code(ks, lt, k) <= |Uniques(ks)|
  {
    StrictSubsetCard(Below(ks, lt, k), Uniques(ks), k);
  }

  lemma CodeMonotone(ks: seq<Key>, lt: (Key, Key) -> bool, a: Key, b: Key)
    requires StrictTotalOrder(lt) && a in Uniques(ks) && b in Uniques(ks) && lt(a, b)
    ensures Code(ks, lt, a) < Code(ks, lt, b)
  {
    assert Below(ks, lt, a) <= Below(ks, lt, b);
    assert a !in Below(ks, lt, a);
    StrictSubsetCard(Below(ks, lt, a), Below(ks, lt, b), a);
  }

  /** Equal values get equal codes, different values different codes, the
      codes follow the order, missing values get 0, and the mapping has one
      entry per distinct value. */
  lemma CodesSpec(ks: seq<Key>, lt: (Key, Key) -> bool)
    requires StrictTotalOrder(lt)
    ensures var c := Codes(ks, lt);
            (forall i, j :: 0 <= i < |ks| && 0 <= j < |ks| ==> (c[i] == c[j] <==> ks[i] == ks[j]))
            && (forall i, j :: 0 <= i < |ks| && 0 <= j < |ks| && ks[i] != KMissing && ks[j] != KMissing && lt(ks[i], ks[j])
                  ==> c[i].i < c[j].i)
            && (forall i :: 0 <= i < |ks| ==> (c[i] == Int(0) <==> ks[i] == KMissing))
            && (forall i :: 0 <= i < |ks| && ks[i] != KMissing ==> 1 <= c[i].i <= |Uniques(ks)|)
            && |ValueMapping(ks, lt)| == |Uniques(ks)|
  {
    var c := Codes(ks, lt);
    forall i | 0 <= i < |ks| && ks[i] != KMissing ensures 1 <= c[i].i <= |Uniques(ks)| {
      CodeBounds(ks, lt, ks[i]);
    }
    forall i, j | 0 <= i < |ks| && 0 <= j < |ks| && ks[i] != KMissing && ks[j] != KMissing && lt(ks[i], ks[j])
      ensures c[i].i < c[j].i
    {
      CodeMonotone(ks, lt, ks[i], ks[j]);
    }
    forall i, j | 0 <= i < |ks| && 0 <= j < |ks| && ks[i] != ks[j] ensures c[i] != c[j] {
      if ks[i] != KMissing && ks[j] != KMissing {
        if lt(ks[i], ks[j]) { CodeMonotone(ks, lt, ks[i], ks[j]); } else { CodeMonotone(ks, lt, ks[j], ks[i]); }
      } else if ks[i] != KMissing {
        CodeBounds(ks, lt, ks[i]);
      } else {
        CodeBounds(ks, lt, ks[j]);
      }
    }
  }

  /** The encoding on the table. */
  function Encoded(t: Table, column: string, name: string, lt: (Key, Key) -> bool): (r: Table)
    requires t.Valid() && column in t.names
    ensures r.Valid() && r.rows == t.rows
  {
    SetColumn(t, name, Codes(Keys(Column(t, column)), lt))
  }

  function NotFound(column: string): Exc
  {
    ValueError("Column '" + column + "' not found in DataFrame")
  }

  /** `apply_distinct_group_encoding(df, column)`: writes the codes into the
      caller's frame under the first free `{column}_distinct_group` name. */
  method ApplyDistinctGroupEncoding(df: DataFrame, column: string, lt: (Key, Key) -> bool)
    returns (out: Outcome<Metadata>)
    requires df.table.Valid()
    modifies df
    ensures column !in old(df.table.names) ==>
              out == Raised(NotFound(column)) && df.table == old(df.table) && df.styled == old(df.styled)
    ensures column in old(df.table.names) ==>
              var name := ColumnNames.UniqueName(column + "_distinct_group", NameSet(old(df.table.names)));
              var ks := Keys(Column(old(df.table), column));
              out == Returned(Metadata(name, ValueMapping(ks, lt), |Uniques(ks)|))
              && df.table == Encoded(old(df.table), column, name, lt) && df.styled == old(df.styled)
  {
    if column !in df.table.names {
      return Raised(NotFound(column));
    }
    var name := ColumnNames.FreshName(column + "_distinct_group", df.table.names);
    var ks := Keys(Column(df.table, column));
    df.table := SetColumn(df.table, name, Codes(ks, lt));
    var mapping := ValueMapping(ks, lt);
    out := Returned(Metadata(name, mapping, |mapping.Keys|));
  }

  /** The encoded table gains exactly one column, appended under a name not
      used before, holding the codes; nothing else changes. */
  lemma EncodedSpec(t: Table, column: string, lt: (Key, Key) -> bool)
    requires t.Valid() && column in t.names
    ensures var name := ColumnNames.UniqueName(column + "_distinct_group", NameSet(t.names));
            var r := Encoded(t, column, name, lt);
            name !in t.names && r.names == t.names + [name] && r.cols == t.cols + [Codes(Keys(Column(t, column)), lt)]
  {
    ColumnNames.UniqueNameSpec(column + "_distinct_group", NameSet(t.names));
  }

  /** The preview text: the new column, the number of distinct values, and
      the mapping as listed by `listing`. */
  function PreviewMessage(m: Metadata, listing: map<Key, int> -> string): string
  {
    "Created new column: " + m.newColumn + "\n" + "Found " + NatToString(m.uniqueValues) + " unique values.\n"
    + "Mapping:\n" + listing(m.valueMapping)
  }

  /** `preview_distinct_group(df, column, preview_rows)`: encodes a copy of
      the first rows; on an error returns the input frame itself. */
  method PreviewDistinctGroup(df: DataFrame, column: string, previewRows: int, lt: (Key, Key) -> bool,
                              listing: map<Key, int> -> string)
    returns (r: DataFrame, ok: bool, message: string)
    requires df.table.Valid()
    ensures df.table == old(df.table) && df.styled == old(df.styled)
    ensures ok <==> column in df.table.names
    ensures !ok ==> r == df && message == "Error in preview: " + NotFound(column).msg
    ensures ok ==>
              var head := Head(df.table, previewRows);
              var name := ColumnNames.UniqueName(column + "_distinct_group", NameSet(df.table.names));
              var ks := Keys(Column(head, column));
              fresh(r) && r.table == Encoded(head, column, name, lt) && r.styled == map[]
              && message == PreviewMessage(Metadata(name, ValueMapping(ks, lt), |Uniques(ks)|), listing)
  {
    var p := new DataFrame(Head(df.table, previewRows));
    var out := ApplyDistinctGroupEncoding(p, column, lt);
    if out.Raised? {
      return df, false, "Error in preview: " + out.exc.msg;
    }
    return p, true, PreviewMessage(out.value, listing);
  }
}
