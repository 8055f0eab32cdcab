/** Deferred operations (src/operations/delayed_operations.py): a queue of
    column operations recorded on a preview and replayed on the whole
    file when it is saved, with cancellation and progress reports. */
module DelayedOperations {
  import opened PyStr
  import opened Cells
  import opened Tables
  import opened OperationRegistry
  import PreviewUtils
  import ValidateInputs

  // ------------------------------------------------------------ dispatch

  /** A validation rebinds the frame to what `apply_validation` returns;
      every other branch updates the frame it was given. */
  predicate Rebinds(op: PreviewUtils.Operation)
  {
    op.opType == "column_operation" && !PreviewUtils.ColumnKey(op.key) && PreviewUtils.IsValidateKey(op.key)
  }

  /** What `apply_operation_to_partition(df, type, op)` returns: the
      branches of the preview dispatcher without its copy and change
      tracking, and validation called with `texts=None`. */
  function Partition(f: Frame, op: PreviewUtils.Operation, reg: Registry): Outcome<Frame>
    requires f.table.Valid()
  {
    var col := op.column;
    var key := op.key;
    if op.opType != "column_operation" then Returned(f)
    else if key == "op_mask" then PreviewUtils.Assign(f, col, x => reg.mask(x, col))
    else if key == "op_mask_email" then PreviewUtils.AssignEmailMask(f, col, reg)
    else if key == "op_mask_words" then PreviewUtils.Assign(f, col, x => reg.maskWords(x, col))
    else if key == "op_trim" then PreviewUtils.Assign(f, col, x => reg.trim(x, col))
    else if key == "op_upper" then PreviewUtils.Assign(f, col, x => reg.changeCase(x, "upper", col))
    else if key == "op_lower" then PreviewUtils.Assign(f, col, x => reg.changeCase(x, "lower", col))
    else if key == "op_title" then PreviewUtils.Assign(f, col, x => reg.changeCase(x, "title", col))
    else if key == "op_remove_non_numeric" then PreviewUtils.Assign(f, col, x => reg.removeChars(x, "non_numeric", col))
    else if key == "op_remove_non_alpha" then PreviewUtils.Assign(f, col, x => reg.removeChars(x, "non_alphabetic", col))
    else if PreviewUtils.IsValidateKey(key) then
      match reg.validateNoTexts(f, col, Replace(key, "op_validate_", ""))
      case Raised(e) => Raised(e)
      case Returned(r) => Returned(r.frame)
    else Returned(f)
  }

  /** The contents of the frame passed in, after the call. */
  function InPlace(f: Frame, op: PreviewUtils.Operation, reg: Registry): Frame
    requires f.table.Valid()
  {
    match Partition(f, op, reg)
    case Raised(_) => f
    case Returned(g) => if Rebinds(op) then f else g
  }

  lemma PartitionValid(f: Frame, op: PreviewUtils.Operation, reg: Registry)
    requires f.table.Valid()
    requires Rebinds(op) ==> forall c, k :: reg.validateNoTexts(f, c, k).Returned? ==> reg.validateNoTexts(f, c, k).value.frame.table.Valid()
    ensures Partition(f, op, reg).Returned? ==> Partition(f, op, reg).value.table.Valid()
  {
  }

  /** Under the src copies a frame is never rebound: a validation either
      raises or hands back the same frame. */
  lemma SrcValidationKeepsFrame(f: Frame, op: PreviewUtils.Operation, ct: CharTables, oc: ValidateInputs.OtherChecks, render: Message -> string)
    requires f.table.Valid() && Rebinds(op)
    ensures var out := Partition(f, op, SrcRegistry(ct, oc, render));
            out.Raised? || out == Returned(f)
  {
    ValidateWithoutTextsSpec(f, op.column, Replace(op.key, "op_validate_", ""), ct, oc);
  }

  /** `apply_operation_to_partition` as the update it makes: an exception
      leaves the frame as it was; otherwise the frame passed in is updated
      in place and returned, except that a validation returns a new frame
      and leaves the one passed in alone. */
  method ApplyOperationToPartition(df: DataFrame, op: PreviewUtils.Operation, reg: Registry) returns (r: DataFrame, raised: Option<Exc>)
    requires df.table.Valid()
    modifies df
    ensures match Partition(old(df.Snapshot()), op, reg)
            case Raised(e) => raised == Some(e) && r == df && df.Snapshot() == old(df.Snapshot())
            case Returned(g) =>
              raised == None && r.Snapshot() == g && df.Snapshot() == InPlace(old(df.Snapshot()), op, reg)
              && (Rebinds(op) ==> fresh(r)) && (!Rebinds(op) ==> r == df)
  {
    var out := Partition(df.Snapshot(), op, reg);
    r := df;
    raised := None;
    match out
    case Raised(e) =>
      raised := Some(e);
    case Returned(g) =>
      if Rebinds(op) {
        r := new DataFrame(g.table);
        r.styled := g.styled;
      } else {
        df.table := g.table;
        df.styled := g.styled;
      }
  }

  // ------------------------------------------------------------ file type

  /** `s.rfind(c)`. */
  function RFind(s: string, c: char): (i: int)
    ensures -1 <= i < |s| && (i >= 0 ==> s[i] == c) && forall k :: i < k < |s| ==> s[k] != c
  {
    if s == [] then -1 else if s[|s| - 1] == c then |s| - 1 else RFind(s[..|s| - 1], c)
  }

  /** `os.path.splitext(path)[1]` with `/` as separator: from the last dot
      of the last component, unless that component has only dots before
      it. */
  function SplitExt(p: string): (ext: string)
  {
    var sep := RFind(p, '/');
    var dot := RFind(p, '.');
    if dot > sep && exists k :: sep + 1 <= k < dot && p[k] != '.' then p[dot..] else ""
  }

  /** The extension is empty or a dot followed by no dot and no separator,
      and it ends the path. */
  lemma SplitExtSpec(p: string)
    ensures var ext := SplitExt(p);
            ext == "" || (ext[0] == '.' && |ext| <= |p| && p[|p| - |ext|..] == ext
                          && forall k :: 1 <= k < |ext| ==> ext[k] != '.' && ext[k] != '/')
  {
    var sep := RFind(p, '/');
    var dot := RFind(p, '.');
    if SplitExt(p) != "" {
      var ext := p[dot..];
      forall k | 1 <= k < |ext| ensures ext[k] != '.' && ext[k] != '/' {
        assert ext[k] == p[dot + k];
      }
    }
  }

  /** `_get_file_type(file_path)`. */
  function GetFileType(path: string, ct: CharTables): Outcome<string>
  {
    var ext := ct.lower(SplitExt(path));
    if ext == ".csv" then Returned("csv")
    else if ext in {".xls", ".xlsx"} then Returned("excel")
    else Raised(ValueError("Unsupported file type: " + ext))
  }

  /** A `.csv` path in a directory is a CSV file. */
  lemma CsvFileType(ct: CharTables)
    requires ct.lower(".csv") == ".csv"
    ensures GetFileType("data/in.csv", ct) == Returned("csv")
  {
    var p := "data/in.csv";
    RFindIs(p, '/', 4);
    RFindIs(p, '.', 7);
    assert p[5] != '.';
    assert p[7..] == ".csv";
  }

  /** An `.xlsx` path with no directory is an Excel file. */
  lemma ExcelFileType(ct: CharTables)
    requires ct.lower(".xlsx") == ".xlsx"
    ensures GetFileType("in.xlsx", ct) == Returned("excel")
  {
    var p := "in.xlsx";
    RFindNone(p, '/');
    RFindIs(p, '.', 2);
    assert p[0] != '.';
    assert p[2..] == ".xlsx";
  }

  /** Another extension is refused with that extension in the message; a
      dot in a directory name is not an extension. */
  lemma UnsupportedFileType(ct: CharTables)
    requires ct.lower(".txt") == ".txt" && ct.lower("") == ""
    ensures GetFileType("a.b/notes.txt", ct) == Raised(ValueError("Unsupported file type: .txt"))
    ensures GetFileType("dir.csv/file", ct) == Raised(ValueError("Unsupported file type: "))
  {
    var p := "a.b/notes.txt";
    RFindIs(p, '/', 3);
    RFindIs(p, '.', 9);
    assert p[4] != '.';
    assert p[9..] == ".txt";
    assert ".txt"[1] != ".csv"[1] && ".txt"[1] != ".xls"[1] && ".txt" != ".xlsx";
    RFindIs("dir.csv/file", '/', 7);
    RFindIs("dir.csv/file", '.', 3);
    assert "Unsupported file type: " + ".txt" == "Unsupported file type: .txt";
    assert "Unsupported file type: " + "" == "Unsupported file type: ";
  }

  /** A name that is only a dot and an extension has none. */
  lemma HiddenFileType(ct: CharTables)
    requires ct.lower("") == ""
    ensures GetFileType(".csv", ct) == Raised(ValueError("Unsupported file type: "))
  {
    RFindNone(".csv", '/');
    RFindIs(".csv", '.', 0);
    assert "Unsupported file type: " + "" == "Unsupported file type: ";
  }

  lemma RFindIs(s: string, c: char, i: nat)
    requires i < |s| && s[i] == c && forall k :: i < k < |s| ==> s[k] != c
    ensures RFind(s, c) == i
  {
  }

  lemma RFindNone(s: string, c: char)
    requires forall k :: 0 <= k < |s| ==> s[k] != c
    ensures RFind(s, c) == -1
  {
  }

  // ------------------------------------------------------------- windows

  /** `nrows = 1000 if size == "1k" else 10000` */
  function RowLimit(size: string): nat
  {
    if size == "1k" then 1000 else 10000
  }

  /** The first row and the number of rows of a preview window. */
  function WindowStart(n: nat, limit: nat, position: string): nat
  {
    if position == "head" then 0
    else if position == "tail" then (if n <= limit then 0 else n - limit)
    else if n <= limit then 0 else (n - limit) / 2
  }

  function WindowLen(n: nat, limit: nat, position: string): nat
  {
    if n <= limit then n else limit
  }

  /** The rows `load_preview` returns from a file of rows `t`. */
  function Window(t: Table, limit: nat, position: string): (r: Table)
    requires t.Valid()
    ensures r.Valid() && r.names == t.names
  {
    var start := WindowStart(t.rows, limit, position);
    var len := WindowLen(t.rows, limit, position);
    SelectRows(t, Range(start, start + len))
  }

  /** Head gives the first min(n, limit) rows, tail the last min(n, limit);
      the middle gives every row when there are at most `limit`, and
      otherwise `limit` consecutive rows from (n - limit) div 2. */
  lemma WindowSpec(t: Table, limit: nat, position: string)
    requires t.Valid()
    ensures var r := Window(t, limit, position);
            var start := WindowStart(t.rows, limit, position);
            r.rows == (if t.rows <= limit then t.rows else limit) && start + r.rows <= t.rows
            && (forall j, k :: 0 <= j < |t.cols| && 0 <= k < r.rows ==> r.cols[j][k] == t.cols[j][start + k])
            && (position == "head" ==> start == 0)
            && (position == "tail" ==> start + r.rows == t.rows)
            && (position != "head" && position != "tail" ==>
                  (t.rows <= limit ==> start == 0) && (t.rows > limit ==> start == (t.rows - limit) / 2))
  {
  }

  // -------------------------------------------------------------- replay

  /** `simulate_operations`: each operation in queue order, an operation
      that raises being skipped. */
  function Replay(f: Frame, ops: seq<PreviewUtils.Operation>, reg: Registry): Frame
    requires f.table.Valid()
    requires ValidatorsValid(reg)
    decreases |ops|
  {
    if ops == [] then f
    else
      PartitionValid(f, ops[0], reg);
      match Partition(f, ops[0], reg)
      case Raised(_) => Replay(f, ops[1..], reg)
      case Returned(g) => Replay(g, ops[1..], reg)
  }

  /** The progress reported before operation i of n. */
  function OpProgress(n: nat, i: nat): real
  {
    (1 + i) as real / (n + 2) as real
  }

  /** The reports of a save that gets through operations 0 .. k-1. */
  function ProgressUpTo(n: nat, k: nat): (p: seq<real>)
    ensures |p| == k + 1 && p[0] == 0.0 && forall i :: 0 <= i < k ==> p[i + 1] == OpProgress(n, i)
  {
    [0.0] + seq(k, i requires 0 <= i < k => OpProgress(n, i))
  }

  /** The reports of a save that succeeds. */
  function FullProgress(n: nat): seq<real>
  {
    ProgressUpTo(n, n) + [(n + 1) as real / (n + 2) as real, 1.0]
  }

  predicate StrictlyIncreasing(p: seq<real>)
  {
    forall a, b :: 0 <= a < b < |p| ==> p[a] < p[b]
  }

  lemma FractionLess(a: nat, b: nat, d: nat)
    requires a < b && d > 0
    ensures a as real / d as real < b as real / d as real
  {
  }

  lemma FullProgressAt(n: nat, i: nat)
    requires i < n + 3
    ensures FullProgress(n)[i] == if i == n + 2 then 1.0 else i as real / (n + 2) as real
  {
    if i == 0 {
      assert FullProgress(n)[0] == 0.0;
    } else if i <= n {
      assert FullProgress(n)[i] == ProgressUpTo(n, n)[i] == OpProgress(n, i - 1);
    }
  }

  /** The reports rise strictly from 0 to 1.0, and 1.0 only comes last;
      a cancelled save never reports 1.0. */
  lemma ProgressSpec(n: nat)
    ensures |FullProgress(n)| == n + 3 && StrictlyIncreasing(FullProgress(n)) && FullProgress(n)[n + 2] == 1.0
    ensures forall k, i :: 0 <= k <= n && 0 <= i <= k ==> ProgressUpTo(n, k)[i] < 1.0
  {
    var p := FullProgress(n);
    var d := n + 2;
    forall a, b | 0 <= a < b < |p| ensures p[a] < p[b] {
      FullProgressAt(n, a);
      FullProgressAt(n, b);
      FractionLess(a, if b == n + 2 then d else b, d);
    }
    FullProgressAt(n, n + 2);
    forall k, i | 0 <= k <= n && 0 <= i <= k ensures ProgressUpTo(n, k)[i] < 1.0 {
      if i > 0 {
        FractionLess(i, d, d);
      }
    }
  }

  /** One operation of a save: it is tried on the sample, which it updates
      in place; when that raises it is skipped, otherwise it is also queued
      on the whole data, where an exception surfaces when the result is
      computed. */
  function SaveStep(sample: Frame, full: Outcome<Frame>, op: PreviewUtils.Operation, reg: Registry): (Frame, Outcome<Frame>)
    requires sample.table.Valid() && (full.Returned? ==> full.value.table.Valid())
  {
    match Partition(sample, op, reg)
    case Raised(_) => (sample, full)
    case Returned(_) =>
      (InPlace(sample, op, reg), match full case Raised(e) => Raised(e) case Returned(g) => Partition(g, op, reg))
  }

  ghost predicate ValidatorsValid(reg: Registry)
  {
    forall c, k, g: Frame :: g.table.Valid() && reg.validateNoTexts(g, c, k).Returned? ==> reg.validateNoTexts(g, c, k).value.frame.table.Valid()
  }

  lemma SaveStepValid(sample: Frame, full: Outcome<Frame>, op: PreviewUtils.Operation, reg: Registry)
    requires sample.table.Valid() && (full.Returned? ==> full.value.table.Valid()) && ValidatorsValid(reg)
    ensures var (s, f) := SaveStep(sample, full, op, reg);
            s.table.Valid() && (f.Returned? ==> f.value.table.Valid())
  {
    PartitionValid(sample, op, reg);
    if full.Returned? { PartitionValid(full.value, op, reg); }
  }

  /** The whole data after the queued operations, or the exception that
      computing it raises. */
  function SaveRun(sample: Frame, full: Outcome<Frame>, ops: seq<PreviewUtils.Operation>, reg: Registry): Outcome<Frame>
    requires sample.table.Valid() && (full.Returned? ==> full.value.table.Valid()) && ValidatorsValid(reg)
    decreases |ops|
  {
    if ops == [] then full
    else
      SaveStepValid(sample, full, ops[0], reg);
      var (s, f) := SaveStep(sample, full, ops[0], reg);
      SaveRun(s, f, ops[1..], reg)
  }

  lemma SaveRunStep(sample: Frame, full: Outcome<Frame>, ops: seq<PreviewUtils.Operation>, reg: Registry)
    requires sample.table.Valid() && (full.Returned? ==> full.value.table.Valid()) && ValidatorsValid(reg)
    requires |ops| > 0
    ensures var (s, f) := SaveStep(sample, full, ops[0], reg);
            s.table.Valid() && (f.Returned? ==> f.value.table.Valid())
            && SaveRun(sample, full, ops, reg) == SaveRun(s, f, ops[1..], reg)
  {
    SaveStepValid(sample, full, ops[0], reg);
  }

  /** One operation of a save on the sample frame, in place, and on the
      whole data. */
  method ApplySaveStep(sample: DataFrame, full: Outcome<Frame>, op: PreviewUtils.Operation, reg: Registry)
    returns (full': Outcome<Frame>)
    requires sample.table.Valid() && (full.Returned? ==> full.value.table.Valid())
    modifies sample
    ensures (sample.Snapshot(), full') == SaveStep(old(sample.Snapshot()), full, op, reg)
  {
    var _, raised := ApplyOperationToPartition(sample, op, reg);
    full' := full;
    if raised == None {
      full' := match full case Raised(e) => Raised(e) case Returned(g) => Partition(g, op, reg);
    }
  }

  /** The loop of a save over the queue: stops at the first check that
      sees the flag set, reporting one step per operation done. */
  method RunQueue(ops: seq<PreviewUtils.Operation>, sample: DataFrame, full0: Outcome<Frame>, cancelSeen: seq<bool>, reg: Registry)
    returns (stopped: bool, full: Outcome<Frame>, progress: seq<real>)
    requires sample.table.Valid() && (full0.Returned? ==> full0.value.table.Valid()) && ValidatorsValid(reg)
    requires |cancelSeen| == |ops| + 1
    modifies sample
    ensures stopped <==> FirstCancel(cancelSeen) < |ops|
    ensures stopped ==> progress == ProgressUpTo(|ops|, FirstCancel(cancelSeen))
    ensures !stopped ==> progress == ProgressUpTo(|ops|, |ops|) && full == SaveRun(old(sample.Snapshot()), full0, ops, reg)
  {
    var n := |ops|;
    progress := [0.0];
    full := full0;
    ghost var target := SaveRun(sample.Snapshot(), full, ops, reg);
    for i := 0 to n
      invariant sample.table.Valid() && (full.Returned? ==> full.value.table.Valid())
      invariant forall j :: 0 <= j < i ==> !cancelSeen[j]
      invariant progress == ProgressUpTo(n, i)
      invariant SaveRun(sample.Snapshot(), full, ops[i..], reg) == target
    {
      if cancelSeen[i] {
        FirstCancelAt(cancelSeen, i);
        return true, full, progress;
      }
      ProgressStep(n, i);
      progress := progress + [OpProgress(n, i)];
      SaveRunStep(sample.Snapshot(), full, ops[i..], reg);
      assert ops[i..][0] == ops[i] && ops[i..][1..] == ops[i + 1..];
      full := ApplySaveStep(sample, full, ops[i], reg);
    }
    assert ops[n..] == [];
    stopped := false;
  }

  lemma ProgressStep(n: nat, i: nat)
    ensures ProgressUpTo(n, i + 1) == ProgressUpTo(n, i) + [OpProgress(n, i)]
  {
    assert forall j :: 0 <= j < i + 2 ==> ProgressUpTo(n, i + 1)[j] == (ProgressUpTo(n, i) + [OpProgress(n, i)])[j];
  }

  lemma FirstCancelAt(cs: seq<bool>, i: nat)
    requires i < |cs| && cs[i] && forall j :: 0 <= j < i ==> !cs[j]
    ensures FirstCancel(cs) == i
  {
  }

  /** The first check that sees the flag set (`|cs|` when none does). */
  function FirstCancel(cs: seq<bool>): (k: nat)
    ensures k <= |cs| && (k < |cs| ==> cs[k]) && forall j :: 0 <= j < k ==> !cs[j]
  {
    if cs == [] then 0 else if cs[0] then 0 else 1 + FirstCancel(cs[1..])
  }

  /** Verdict, progress reports and saved rows of a save over n
      operations: cancelled at the first check that sees the flag; failing
      when computing the result raises; saved otherwise. */
  function SaveResult(n: nat, cancelSeen: seq<bool>, result: Outcome<Frame>): (Outcome<bool>, seq<real>, Option<Table>)
    requires |cancelSeen| == n + 1
  {
    var k := FirstCancel(cancelSeen);
    if k <= n then (Returned(false), ProgressUpTo(n, k), None)
    else if result.Raised? then (Raised(result.exc), ProgressUpTo(n, n) + [(n + 1) as real / (n + 2) as real], None)
    else (Returned(true), FullProgress(n), Some(result.value.table))
  }

  /** A cancelled or failed save reports no 1.0 and saves nothing; a
      completed one reports 0, one step per operation, the save step and
      1.0, strictly rising. */
  lemma SaveResultSpec(n: nat, cancelSeen: seq<bool>, result: Outcome<Frame>)
    requires |cancelSeen| == n + 1
    ensures var (ok, progress, saved) := SaveResult(n, cancelSeen, result);
            StrictlyIncreasing(progress) && |progress| > 0 && progress[0] == 0.0
            && (ok == Returned(true) <==> saved.Some?)
            && (ok == Returned(true) <==> 1.0 in progress)
            && (ok == Returned(true) ==> progress[|progress| - 1] == 1.0 && |progress| == n + 3)
            && ((exists k :: 0 <= k <= n && cancelSeen[k]) ==> ok == Returned(false))
  {
    ProgressSpec(n);
    var k := FirstCancel(cancelSeen);
    var p := FullProgress(n);
    if k <= n {
      ProgressPrefix(n, k);
      PrefixBelowLast(p, k + 1);
    } else if result.Raised? {
      ProgressPrefix(n, n);
      assert ProgressUpTo(n, n) + [(n + 1) as real / (n + 2) as real] == p[..n + 2];
      PrefixBelowLast(p, n + 2);
    }
  }

  /** The reports of a save cut short are a prefix of those of a full one. */
  lemma ProgressPrefix(n: nat, k: nat)
    requires k <= n
    ensures ProgressUpTo(n, k) == FullProgress(n)[..k + 1]
  {
    var p := FullProgress(n);
    assert forall i :: 0 < i <= k ==> p[i] == ProgressUpTo(n, n)[i] == OpProgress(n, i - 1);
  }

  lemma PrefixBelowLast(p: seq<real>, m: nat)
    requires StrictlyIncreasing(p) && m < |p|
    ensures StrictlyIncreasing(p[..m])
    ensures p[|p| - 1] !in p[..m]
  {
  }

  /** The rows read as a sample. */
  const SampleSize: nat := 1000

  // ------------------------------------------------------------- manager

  class DelayedOperationManager {
    var operations: seq<PreviewUtils.Operation>
    var fullFilePath: Option<string>
    var inputFileType: Option<string>
    var cancelFlag: bool

    constructor ()
      ensures operations == [] && fullFilePath == None && inputFileType == None && !cancelFlag
    {
      operations := [];
      fullFilePath := None;
      inputFileType := None;
      cancelFlag := false;
    }

    /** `load_preview(file_path, size, position)` on a file whose rows are
        `file`: records the path, then the type (an unsupported one
        raises and leaves the type as it was), then returns the window. */
    method LoadPreview(path: string, size: string, position: string, file: Table, ct: CharTables)
      returns (out: Outcome<Table>)
      requires file.Valid()
      modifies this
      ensures fullFilePath == Some(path) && operations == old(operations) && cancelFlag == old(cancelFlag)
      ensures match GetFileType(path, ct)
              case Raised(e) => out == Raised(e) && inputFileType == old(inputFileType)
              case Returned(kind) => inputFileType == Some(kind) && out == Returned(Window(file, RowLimit(size), position))
    {
      fullFilePath := Some(path);
      var kind := GetFileType(path, ct);
      if kind.Raised? {
        return Raised(kind.exc);
      }
      inputFileType := Some(kind.value);
      var limit := if size == "1k" then 1000 else 10000;
      out := Returned(Window(file, limit, position));
    }

    /** `add_operation(operation)`: only column operations are queued. */
    method AddOperation(op: PreviewUtils.Operation)
      modifies this
      ensures op.opType == "column_operation" ==> operations == old(operations) + [op]
      ensures op.opType != "column_operation" ==> operations == old(operations)
      ensures fullFilePath == old(fullFilePath) && inputFileType == old(inputFileType) && cancelFlag == old(cancelFlag)
    {
      if op.opType == "column_operation" {
        operations := operations + [PreviewUtils.Operation(op.opType, op.key, op.column)];
      }
    }

    method ClearOperations()
      modifies this
      ensures operations == []
      ensures fullFilePath == old(fullFilePath) && inputFileType == old(inputFileType) && cancelFlag == old(cancelFlag)
    {
      operations := [];
    }

    method CancelProcessing()
      modifies this
      ensures cancelFlag
      ensures operations == old(operations) && fullFilePath == old(fullFilePath) && inputFileType == old(inputFileType)
    {
      cancelFlag := true;
    }

    /** `simulate_operations(df)`: the queue replayed on a copy; the frame
        passed in is not changed. */
    method SimulateOperations(df: DataFrame, reg: Registry) returns (result: DataFrame)
      requires df.table.Valid() && ValidatorsValid(reg)
      ensures fresh(result)
      ensures result.Snapshot() == Replay(Copy(df.Snapshot()), operations, reg)
    {
      result := new DataFrame(df.table);
      for i := 0 to |operations|
        invariant fresh(result) && result.table.Valid()
        invariant Replay(result.Snapshot(), operations[i..], reg) == Replay(Copy(df.Snapshot()), operations, reg)
      {
        assert operations[i..][0] == operations[i] && operations[i..][1..] == operations[i + 1..];
        PartitionValid(result.Snapshot(), operations[i], reg);
        var r, raised := ApplyOperationToPartition(result, operations[i], reg);
        if raised == None {
          result := r;
        }
      }
    }

    /** `save_with_operations(output_path, progress_callback)` on a file
        whose rows are `file`. `cancelSeen[k]` is whether the flag, reset on
        entry, has been set by the time of the k-th check (before each
        operation, and before saving). The reports, the saved rows (or the
        exception computing them raises) and the verdict are returned. */
    method SaveWithOperations(file: Table, cancelSeen: seq<bool>, reg: Registry)
      returns (ok: Outcome<bool>, progress: seq<real>, saved: Option<Table>)
      requires file.Valid() && ValidatorsValid(reg) && |cancelSeen| == |operations| + 1
      modifies this
      ensures operations == old(operations) && fullFilePath == old(fullFilePath) && inputFileType == old(inputFileType)
      ensures (ok, progress, saved)
              == SaveResult(|operations|, cancelSeen, SaveRun(Frame(Head(file, SampleSize), map[]), Returned(Frame(file, map[])), operations, reg))
      ensures cancelFlag <==> FirstCancel(cancelSeen) < |cancelSeen|
    {
      cancelFlag := false;
      var n := |operations|;
      var sample := new DataFrame(Head(file, SampleSize));
      var stopped, full;
      stopped, full, progress := RunQueue(operations, sample, Returned(Frame(file, map[])), cancelSeen, reg);
      saved := None;
      if stopped {
        cancelFlag := true;
        return Returned(false), progress, None;
      }
      if cancelSeen[n] {
        cancelFlag := true;
        assert FirstCancel(cancelSeen) == n;
        return Returned(false), progress, None;
      }
      assert FirstCancel(cancelSeen) == n + 1;
      progress := progress + [(n + 1) as real / (n + 2) as real];
      if full.Raised? {
        return Raised(full.exc), progress, None;
      }
      saved := Some(full.value.table);
      assert progress + [1.0] == FullProgress(n);
      progress := progress + [1.0];
      ok := Returned(true);
    }
  }
}
