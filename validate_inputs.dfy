/** Input validation of one column (src/operations/validate_inputs.py): per-cell
    validators that give `(is_valid, reason)`, and `apply_validation`, which
    marks the invalid cells of the column in the frame's side map. */
module ValidateInputs {
  import opened PyStr
  import opened Cells
  import opened Tables

  /** A validator's `(is_valid, reason)`. */
  datatype Verdict = Verdict(valid: bool, reason: string)

  /** `re.match(r'^...$', s)` for a pattern whose body accepts exactly the
      strings `body` accepts: `$` matches at the end and also right before a
      final newline. */
  predicate DollarMatch(body: string -> bool, s: string)
  {
    body(s) || (|s| > 0 && s[|s| - 1] == '\n' && body(s[..|s| - 1]))
  }

  /** The two checks every validator makes first, in this order: the value
      is the column header, then the value is missing or `""`. */
  function Precheck(c: Cell, column: Option<string>): Option<Verdict>
  {
    if Guarded(c, column) then Some(Verdict(false, "Column Header"))
    else if IsMissing(c) || c == Text("") then Some(Verdict(false, "Empty"))
    else None
  }

  function FormatVerdict(ok: bool): Verdict
  {
    Verdict(ok, if ok then "Valid" else "Invalid Format")
  }

  predicate AllChars(s: string, p: char -> bool)
  {
    forall k :: 0 <= k < |s| ==> p(s[k])
  }

  // ---------------------------------------------------------------- email

  /** `[a-zA-Z0-9._%+-]` */
  predicate LocalChar(c: char) { IsAsciiLetter(c) || IsAsciiDigit(c) || c in "._%+-" }

  /** `[a-zA-Z0-9.-]` */
  predicate HostChar(c: char) { IsAsciiLetter(c) || IsAsciiDigit(c) || c in ".-" }

  /** `[a-zA-Z0-9._%+-]+@[a-zA-Z0-9.-]+\.[a-zA-Z]{2,}`: a user part, `'@'`, a
      host part, `'.'` and at least two ASCII letters, split at i and j. */
  predicate EmailSplit(s: string, i: int, j: int)
  {
    0 < i && i + 1 < j && j + 2 < |s| && s[i] == '@' && s[j] == '.'
    && AllChars(s[..i], LocalChar) && AllChars(s[i + 1..j], HostChar) && AllChars(s[j + 1..], IsAsciiLetter)
  }

  predicate EmailBody(s: string)
  {
    exists i, j :: 0 <= i < j < |s| && EmailSplit(s, i, j)
  }

  /** `validate_email(value, column_name)`. */
  function ValidateEmail(c: Cell, column: Option<string>): Verdict
  {
    match Precheck(c, column)
    case Some(v) => v
    case None => FormatVerdict(DollarMatch(EmailBody, Str(c)))
  }

  /** Neither character class holds `'@'`, so a valid address has exactly
      one `'@'`, and it is not the first character. */
  lemma EmailOneAt(s: string)
    requires DollarMatch(EmailBody, s)
    ensures exists i :: 0 < i < |s| && s[i] == '@' && forall k :: 0 <= k < |s| && s[k] == '@' ==> k == i
  {
    if EmailBody(s) {
      var i := EmailBodyOneAt(s);
    } else {
      var b := s[..|s| - 1];
      var i := EmailBodyOneAt(b);
      assert s == b + "\n";
      assert s[i] == '@';
    }
  }

  lemma EmailBodyOneAt(b: string) returns (i: nat)
    requires EmailBody(b)
    ensures 0 < i < |b| && b[i] == '@' && forall k :: 0 <= k < |b| && b[k] == '@' ==> k == i
  {
    var i0, j :| 0 <= i0 < j < |b| && EmailSplit(b, i0, j);
    i := i0;
    assert forall k :: 0 <= k < |b| && b[k] == '@' ==> k == i;
  }

  // ---------------------------------------------------------------- phone

  /** `[0-9\s\(\)\-\+]` */
  predicate PhoneChar(c: char) { IsAsciiDigit(c) || IsSpace(c) || c in "()-+" }

  /** `[0-9\s\(\)\-\+]{7,20}` */
  predicate PhoneBody(s: string) { 7 <= |s| <= 20 && AllChars(s, PhoneChar) }

  /** `re.search(r'\d', value)` */
  predicate HasDecimal(s: string, ct: CharTables)
  {
    exists k :: 0 <= k < |s| && ct.isDecimal(s[k])
  }

  /** `validate_phone(value, column_name)`. */
  function ValidatePhone(c: Cell, column: Option<string>, ct: CharTables): Verdict
  {
    match Precheck(c, column)
    case Some(v) => v
    case None => var s := Str(c); FormatVerdict(HasDecimal(s, ct) && DollarMatch(PhoneBody, s))
  }

  /** A valid phone value holds a digit and consists of phone characters
      only; it has 7 to 20 of them, or 21 when the last is the newline `$`
      lets through; and every such value of 7 to 20 characters is valid. */
  lemma PhoneSpec(s: string, ct: CharTables)
    ensures HasDecimal(s, ct) && DollarMatch(PhoneBody, s) ==> 7 <= |s| <= 21 && AllChars(s, PhoneChar)
    ensures HasDecimal(s, ct) && 7 <= |s| <= 20 && AllChars(s, PhoneChar) ==> DollarMatch(PhoneBody, s)
  {
    if DollarMatch(PhoneBody, s) && !PhoneBody(s) {
      var p := s[..|s| - 1];
      assert s == p + "\n";
      forall k | 0 <= k < |s| ensures PhoneChar(s[k]) {
        if k < |p| { assert s[k] == p[k]; }
      }
    }
  }

  // -------------------------------------------------------------- numeric

  predicate AllDecimal(s: string, ct: CharTables) { forall k :: 0 <= k < |s| ==> ct.isDecimal(s[k]) }

  /** `\d*\.?\d+`: digits, or digits, a point and at least one digit. */
  predicate UnsignedBody(t: string, ct: CharTables)
  {
    (|t| > 0 && AllDecimal(t, ct))
    || exists k :: 0 <= k < |t| - 1 && t[k] == '.' && AllDecimal(t[..k], ct) && AllDecimal(t[k + 1..], ct)
  }

  /** `-?\d*\.?\d+` */
  predicate NumericBody(s: string, ct: CharTables)
  {
    UnsignedBody(s, ct) || (|s| > 0 && s[0] == '-' && UnsignedBody(s[1..], ct))
  }

  function NumericBodyIn(ct: CharTables): string -> bool
  {
    s => NumericBody(s, ct)
  }

  /** `validate_numeric(value, column_name)`: numbers (booleans among them,
      being integers in Python) are valid as they are; anything else by the
      pattern on its text. */
  function ValidateNumeric(c: Cell, column: Option<string>, ct: CharTables): Verdict
  {
    match Precheck(c, column)
    case Some(v) => v
    case None =>
      if c.Int? || c.Float? || c.Bool? then Verdict(true, "Valid")
      else FormatVerdict(DollarMatch(NumericBodyIn(ct), Str(c)))
  }

  /** A leading point is accepted and a trailing one is not; one minus sign
      is accepted and two are not. */
  lemma NumericExamples(ct: CharTables)
    requires ct.isDecimal('1') && ct.isDecimal('5')
    requires !ct.isDecimal('.') && !ct.isDecimal('-') && !ct.isDecimal('\n')
    ensures DollarMatch(NumericBodyIn(ct), ".5")
    ensures !DollarMatch(NumericBodyIn(ct), "1.")
    ensures DollarMatch(NumericBodyIn(ct), "-1")
    ensures !DollarMatch(NumericBodyIn(ct), "--1")
  {
    assert ".5"[..0] == [] && ".5"[1..] == "5";
    assert UnsignedBody(".5", ct);
    assert !AllDecimal("1.", ct) by { assert !ct.isDecimal("1."[1]); }
    assert !UnsignedBody("1.", ct);
    assert "1."[1..] == ".";
    assert "1."[..1] == "1";
    assert "-1"[1..] == "1";
    assert UnsignedBody("1", ct);
    assert "--1"[1..] == "-1";
    assert !AllDecimal("--1", ct) by { assert !ct.isDecimal("--1"[0]); }
    assert !AllDecimal("-1", ct) by { assert !ct.isDecimal("-1"[0]); }
    assert !UnsignedBody("--1", ct);
    assert !UnsignedBody("-1", ct);
  }

  predicate AtMostOnePoint(s: string)
  {
    forall a, b :: 0 <= a < b < |s| && s[a] == '.' ==> s[b] != '.'
  }

  /** An accepted number text ends with a digit and has at most one point. */
  lemma NumericBodyShape(s: string, ct: CharTables)
    requires !ct.isDecimal('.')
    requires NumericBody(s, ct)
    ensures |s| > 0 && ct.isDecimal(s[|s| - 1]) && AtMostOnePoint(s)
  {
    if UnsignedBody(s, ct) {
      UnsignedBodyShape(s, ct);
    } else {
      var t := s[1..];
      UnsignedBodyShape(t, ct);
      assert s == "-" + t;
      forall a, b | 0 <= a < b < |s| && s[a] == '.' ensures s[b] != '.' {
        assert s[a] == t[a - 1] && s[b] == t[b - 1];
      }
    }
  }

  lemma UnsignedBodyShape(t: string, ct: CharTables)
    requires !ct.isDecimal('.')
    requires UnsignedBody(t, ct)
    ensures |t| > 0 && ct.isDecimal(t[|t| - 1]) && AtMostOnePoint(t)
  {
    if !AllDecimal(t, ct) {
      var k :| 0 <= k < |t| - 1 && t[k] == '.' && AllDecimal(t[..k], ct) && AllDecimal(t[k + 1..], ct);
      assert forall a :: k < a < |t| ==> t[a] == t[k + 1..][a - k - 1];
      assert forall a :: 0 <= a < k ==> t[a] == t[..k][a];
    }
  }

  // --------------------------------------------------------- alphanumeric

  /** `[a-zA-Z0-9\s]` */
  predicate AlnumChar(c: char) { IsAsciiLetter(c) || IsAsciiDigit(c) || IsSpace(c) }

  /** `[a-zA-Z0-9\s]+` */
  predicate AlnumBody(s: string) { |s| > 0 && AllChars(s, AlnumChar) }

  /** `validate_alphanumeric(value, column_name)`. */
  function ValidateAlphanumeric(c: Cell, column: Option<string>): Verdict
  {
    match Precheck(c, column)
    case Some(v) => v
    case None => FormatVerdict(DollarMatch(AlnumBody, Str(c)))
  }

  /** The newline `$` lets through is whitespace, which the class already
      holds: a value is accepted iff it is non-empty and made of ASCII
      letters, ASCII digits and whitespace. */
  lemma AlphanumericSpec(s: string)
    ensures DollarMatch(AlnumBody, s) <==> |s| > 0 && AllChars(s, AlnumChar)
  {
    if DollarMatch(AlnumBody, s) && !AlnumBody(s) {
      var p := s[..|s| - 1];
      forall k | 0 <= k < |s| ensures AlnumChar(s[k]) {
        if k < |p| { assert s[k] == p[k]; }
      }
    }
  }

  // ------------------------------------------------------- date and url

  /** The two validators the model does not spell out: the date check after
      the two prechecks (`strptime` against nine formats, or a date value),
      and the body of the URL pattern. */
  datatype OtherChecks = OtherChecks(isDate: Cell -> bool, urlBody: string -> bool)

  function ValidateDate(c: Cell, column: Option<string>, oc: OtherChecks): Verdict
  {
    match Precheck(c, column)
    case Some(v) => v
    case None => Verdict(oc.isDate(c), if oc.isDate(c) then "Valid" else "Invalid Format")
  }

  function ValidateUrl(c: Cell, column: Option<string>, oc: OtherChecks): Verdict
  {
    match Precheck(c, column)
    case Some(v) => v
    case None => FormatVerdict(DollarMatch(oc.urlBody, Str(c)))
  }

  // ----------------------------------------------------- apply_validation

  datatype Kind = Email | Phone | Date | Numeric | Alphanumeric | Url

  /** The `validation_functions` table. */
  function KindOf(name: string): Option<Kind>
  {
    if name == "email" then Some(Email)
    else if name == "phone" then Some(Phone)
    else if name == "date" then Some(Date)
    else if name == "numeric" then Some(Numeric)
    else if name == "alphanumeric" then Some(Alphanumeric)
    else if name == "url" then Some(Url)
    else None
  }

  function Validate(k: Kind, c: Cell, column: Option<string>, ct: CharTables, oc: OtherChecks): Verdict
  {
    match k
    case Email => ValidateEmail(c, column)
    case Phone => ValidatePhone(c, column, ct)
    case Date => ValidateDate(c, column, oc)
    case Numeric => ValidateNumeric(c, column, ct)
    case Alphanumeric => ValidateAlphanumeric(c, column)
    case Url => ValidateUrl(c, column, oc)
  }

  /** Every validator answers `(False, "Column Header")` for the header,
      even a missing one, and `(False, "Empty")` for any other missing or
      empty value. */
  lemma PrecheckOrder(k: Kind, c: Cell, column: string, ct: CharTables, oc: OtherChecks)
    ensures IsHeader(c, column) ==> Validate(k, c, Some(column), ct, oc) == Verdict(false, "Column Header")
    ensures !IsHeader(c, column) && (IsMissing(c) || c == Text("")) ==>
              Validate(k, c, Some(column), ct, oc) == Verdict(false, "Empty")
  {
  }

  function CountTrue(bs: seq<bool>): (n: nat)
    ensures n <= |bs|
  {
    if bs == [] then 0 else (if bs[0] then 1 else 0) + CountTrue(bs[1..])
  }

  /** Per-row validity of a column, as `apply` of the validator gives it. */
  function ValidMask(k: Kind, cells: seq<Cell>, col: string, ct: CharTables, oc: OtherChecks): (m: seq<bool>)
    ensures |m| == |cells| && forall i :: 0 <= i < |cells| ==> m[i] == Validate(k, cells[i], Some(col), ct, oc).valid
  {
    seq(|cells|, i requires 0 <= i < |cells| => Validate(k, cells[i], Some(col), ct, oc).valid)
  }

  /** `~mask` */
  function Negate(bs: seq<bool>): (r: seq<bool>)
    ensures |r| == |bs| && forall i :: 0 <= i < |bs| ==> r[i] == !bs[i]
  {
    seq(|bs|, i requires 0 <= i < |bs| => !bs[i])
  }

  /** `apply_validation(dataframe, col, validation_type, texts)`: Error with
      the input frame for a missing column or an unknown type; otherwise a
      copy holding the same cells whose side map marks the invalid cells of
      `col`, and a message with the valid and total counts. */
  function ApplyValidation(f: Frame, col: string, kind: string, ct: CharTables, oc: OtherChecks): FrameReply
    requires f.table.Valid()
  {
    if col !in f.table.names then FrameReply(f, Error, Msg("column_not_found", [col]))
    else match KindOf(kind)
      case None => FrameReply(f, Error, Plain("Unknown validation type: " + kind))
      case Some(k) =>
        var cells := Column(f.table, col);
        var valid := ValidMask(k, cells, col, ct, oc);
        FrameReply(Frame(f.table, map[col := Negate(valid)]), Success,
                   Msg("check_valid_inputs_success", [col, kind, NatToString(CountTrue(valid)), NatToString(|cells|)]))
  }

  /** The error cases come back with the input; on success the cells are
      unchanged, only `col` is in the side map, its mask is true exactly at
      the invalid cells (header-like and empty cells among them), and the
      message counts the valid cells, at most the row count. */
  lemma ApplyValidationSpec(f: Frame, col: string, kind: string, ct: CharTables, oc: OtherChecks)
    requires f.table.Valid()
    ensures col !in f.table.names ==> ApplyValidation(f, col, kind, ct, oc) == FrameReply(f, Error, Msg("column_not_found", [col]))
    ensures col in f.table.names && KindOf(kind).None? ==>
              ApplyValidation(f, col, kind, ct, oc) == FrameReply(f, Error, Plain("Unknown validation type: " + kind))
    ensures col in f.table.names && KindOf(kind).Some? ==>
              var r := ApplyValidation(f, col, kind, ct, oc);
              var cells := Column(f.table, col);
              var k := KindOf(kind).value;
              var valid := ValidMask(k, cells, col, ct, oc);
              r.kind == Success && r.frame.table == f.table && r.frame.styled.Keys == {col}
              && |r.frame.styled[col]| == f.table.rows
              && (forall i :: 0 <= i < f.table.rows ==>
                    (r.frame.styled[col][i] <==> !Validate(k, cells[i], Some(col), ct, oc).valid))
              && (forall i :: 0 <= i < f.table.rows && (IsHeader(cells[i], col) || IsMissing(cells[i]) || cells[i] == Text("")) ==>
                    r.frame.styled[col][i])
              && CountTrue(valid) <= f.table.rows
              && r.msg == Msg("check_valid_inputs_success", [col, kind, NatToString(CountTrue(valid)), NatToString(f.table.rows)])
  {
    if col in f.table.names && KindOf(kind).Some? {
      var cells := Column(f.table, col);
      var k := KindOf(kind).value;
      forall i | 0 <= i < f.table.rows && (IsHeader(cells[i], col) || IsMissing(cells[i]) || cells[i] == Text(""))
        ensures !Validate(k, cells[i], Some(col), ct, oc).valid
      {
        PrecheckOrder(k, cells[i], col, ct, oc);
      }
    }
  }
}
