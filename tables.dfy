/** Data frames as the operations see them: named columns of cells, the
    `(status, message)` reply every table operation returns, and the
    `_styled_columns` side map the preview code attaches to a frame. */
module Tables {
  import opened PyStr
  import opened Cells

  /** Column names, one cell sequence per column (column-major), and the
      number of rows. */
  datatype Table = Table(names: seq<string>, cols: seq<seq<Cell>>, rows: nat)
  {
    /** Every column has one cell per row. */
    predicate Valid() {
      |names| == |cols| && forall j :: 0 <= j < |cols| ==> |cols[j]| == rows
    }
  }

  predicate DistinctNames(names: seq<string>) {
    forall i, j :: 0 <= i < j < |names| ==> names[i] != names[j]
  }

  function NameSet(names: seq<string>): set<string> {
    set n | n in names
  }

  /** `columns.get_loc(name)`: the position of the first column so named. */
  function IndexOf(names: seq<string>, name: string): (j: nat)
    requires name in names
    ensures j < |names| && names[j] == name
    ensures forall k :: 0 <= k < j ==> names[k] != name
  {
    if names[0] == name then 0 else 1 + IndexOf(names[1..], name)
  }

  lemma IndexOfDistinct(names: seq<string>, j: nat)
    requires DistinctNames(names) && j < |names|
    ensures IndexOf(names, names[j]) == j
  {
  }

  /** `df[name]`. */
  function Column(t: Table, name: string): (c: seq<Cell>)
    requires t.Valid() && name in t.names
    ensures |c| == t.rows
  {
    t.cols[IndexOf(t.names, name)]
  }

  /** `df[name] = col`: the column so named is replaced in place, or a new
      column is appended at the end. */
  function SetColumn(t: Table, name: string, col: seq<Cell>): (r: Table)
    requires t.Valid() && |col| == t.rows
    ensures r.Valid() && r.rows == t.rows
  {
    if name in t.names then Table(t.names, t.cols[IndexOf(t.names, name) := col], t.rows)
    else Table(t.names + [name], t.cols + [col], t.rows)
  }

  /** `df[name] = col` adds or replaces exactly that column. */
  lemma SetColumnSpec(t: Table, name: string, col: seq<Cell>)
    requires t.Valid() && |col| == t.rows
    ensures var r := SetColumn(t, name, col);
            name in r.names && Column(r, name) == col
            && (name !in t.names ==> r.names == t.names + [name] && r.cols[..|t.cols|] == t.cols)
            && (name in t.names ==> OnlyColumnChanged(t, r, name))
  {
    var r := SetColumn(t, name, col);
    if name !in t.names {
      assert r.names[|t.names|] == name;
      assert forall k :: 0 <= k < |t.names| ==> r.names[k] == t.names[k] != name;
      assert IndexOf(r.names, name) == |t.names|;
      assert r.cols[..|t.cols|] == t.cols;
    }
  }

  /** `df.insert(i, name, col)`. */
  function InsertColumn(t: Table, i: nat, name: string, col: seq<Cell>): (r: Table)
    requires t.Valid() && i <= |t.names| && |col| == t.rows
    ensures r.Valid() && r.rows == t.rows
  {
    Table(t.names[..i] + [name] + t.names[i..], t.cols[..i] + [col] + t.cols[i..], t.rows)
  }

  /** `df.iloc[idx]`: the rows at the given positions, in that order. */
  function SelectRows(t: Table, idx: seq<nat>): (r: Table)
    requires t.Valid()
    requires forall k :: 0 <= k < |idx| ==> idx[k] < t.rows
    ensures r.Valid() && r.names == t.names && r.rows == |idx|
    ensures forall j, k :: 0 <= j < |t.cols| && 0 <= k < |idx| ==> r.cols[j][k] == t.cols[j][idx[k]]
  {
    Table(t.names, seq(|t.cols|, j requires 0 <= j < |t.cols| => seq(|idx|, k requires 0 <= k < |idx| => t.cols[j][idx[k]])), |idx|)
  }

  /** `df.head(n)`: the first n rows, or all but the last -n when n is
      negative. */
  function HeadCount(rows: nat, n: int): (k: nat)
    ensures k <= rows
    ensures n >= 0 ==> k == if n < rows then n else rows
    ensures n < 0 ==> k == if rows + n > 0 then rows + n else 0
  {
    if n >= 0 then (if n < rows then n else rows) else if rows + n > 0 then rows + n else 0
  }

  function Head(t: Table, n: int): (r: Table)
    requires t.Valid()
    ensures r.Valid() && r.names == t.names && r.rows == HeadCount(t.rows, n)
  {
    SelectRows(t, Range(0, HeadCount(t.rows, n)))
  }

  function Range(lo: nat, hi: nat): (r: seq<nat>)
    requires lo <= hi
    ensures |r| == hi - lo && forall k :: 0 <= k < |r| ==> r[k] == lo + k
    decreases hi - lo
  {
    if lo == hi then [] else [lo] + Range(lo + 1, hi)
  }

  /** Applies a cell function to every cell of one column. */
  function MapCells(col: seq<Cell>, f: Cell -> Cell): (r: seq<Cell>)
    ensures |r| == |col| && forall i :: 0 <= i < |col| ==> r[i] == f(col[i])
  {
    seq(|col|, i requires 0 <= i < |col| => f(col[i]))
  }

  /** Only the named column may differ: names, row count and the other
      columns are those of `t`. */
  predicate OnlyColumnChanged(t: Table, r: Table, name: string)
    requires t.Valid() && name in t.names
  {
    r.names == t.names && r.rows == t.rows && |r.cols| == |t.cols|
    && forall j :: 0 <= j < |t.cols| && j != IndexOf(t.names, name) ==> r.cols[j] == t.cols[j]
  }

  // ------------------------------------------------------------ replies

  datatype StatusKind = Success | Warning | Error | Info

  /** A status message: a translated text with its format arguments, the
      same with a fixed English note appended, or a literal text. */
  datatype Message =
    | Msg(key: string, args: seq<string>)
    | WithNote(base: Message, note: string)
    | Plain(text: string)

  /** The `(dataframe, (status, message))` pair a table operation returns. */
  datatype Reply = Reply(table: Table, kind: StatusKind, msg: Message)

  // ------------------------------------------------- styled side map

  /** A frame together with its `_styled_columns` attribute (a mask of
      highlighted rows per column name). */
  datatype Frame = Frame(table: Table, styled: map<string, seq<bool>>)

  /** `df.copy()`: the cells are copied, the ad-hoc attribute is not. */
  function Copy(f: Frame): (r: Frame)
    ensures r.table == f.table && r.styled == map[]
  {
    Frame(f.table, map[])
  }

  /** The `(dataframe, (status, message))` pair of an operation that may
      attach a side map to its result. */
  datatype FrameReply = FrameReply(frame: Frame, kind: StatusKind, msg: Message)

  /** A frame object whose columns and side map are updated in place. */
  class DataFrame {
    var table: Table
    var styled: map<string, seq<bool>>

    constructor (t: Table)
      ensures table == t && styled == map[]
    {
      table := t;
      styled := map[];
    }

    function Snapshot(): Frame
      reads this
    {
      Frame(table, styled)
    }
  }
}
