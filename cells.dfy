/** Cell values as pandas holds them in an object column, Python's `str()`
    of a cell, Python equality of cells, number coercion, and raised
    exceptions. */
module Cells {
  import opened PyStr

  /** One cell. `Missing` stands for NaN, `PyNone` for Python's `None`
      (which pandas counts as missing but `str` writes as "None"); a float carries the text
      `str()` gives for it; `Pair` is a `(value, changed)` tuple, which some
      dispatchers store in a cell as it is. */
  datatype Cell =
    | Missing
    | PyNone
    | Text(s: string)
    | Int(i: int)
    | Float(x: real, repr: string)
    | Bool(b: bool)
    | Pair(first: Cell, flag: bool)

  function BoolText(b: bool): string { if b then "True" else "False" }

  /** `str(c)`. */
  function Str(c: Cell): string
    decreases c, 1
  {
    match c
    case Missing => "nan"
    case PyNone => "None"
    case Text(s) => s
    case Int(i) => IntToString(i)
    case Float(_, repr) => repr
    case Bool(b) => BoolText(b)
    case Pair(v, f) => "(" + Repr(v) + ", " + BoolText(f) + ")"
  }

  /** `repr(c)` as it appears inside a tuple: text is quoted and escaped,
      every other value is written as `str` writes it. */
  function Repr(c: Cell): string
    decreases c, 2
  {
    if c.Text? then ReprText(c.s) else Str(c)
  }

  /** The quote `repr` puts around a string: double quotes when the text
      holds a single quote and no double quote, single quotes otherwise. */
  function QuoteFor(s: string): char
  {
    if '\'' in s && '"' !in s then '"' else '\''
  }

  /** Two lower-case hexadecimal digits of a code below 256. */
  function Hex2(n: nat): (h: string)
    requires n < 256
    ensures |h| == 2
  {
    var digits := "0123456789abcdef";
    [digits[n / 16], digits[n % 16]]
  }

  /** Characters up to U+00FF that `str.isprintable` rejects: the C0 and C1
      controls, DEL, the no-break space and the soft hyphen. */
  predicate NonPrintableLatin1(ch: char)
  {
    ch as int < 0x20 || (0x7f <= ch as int <= 0xa0) || ch as int == 0xad
  }

  /** How `repr` writes one character of a string quoted with `q`. */
  function EscapeChar(ch: char, q: char): string
  {
    if ch == q || ch == '\\' then ['\\', ch]
    else if ch == '\t' then "\\t"
    else if ch == '\n' then "\\n"
    else if ch == '\r' then "\\r"
    else if NonPrintableLatin1(ch) then "\\x" + Hex2(ch as int)
    else [ch]
  }

  function EscapeAll(s: string, q: char): string
  {
    if s == [] then [] else EscapeChar(s[0], q) + EscapeAll(s[1..], q)
  }

  /** `repr(s)` for a string. */
  function ReprText(s: string): string
  {
    var q := QuoteFor(s);
    [q] + EscapeAll(s, q) + [q]
  }

  /** A character that `repr` writes as it is inside quotes `q`. */
  predicate PlainChar(ch: char, q: char)
  {
    ch != q && ch != '\\' && ch != '\t' && ch != '\n' && ch != '\r' && !NonPrintableLatin1(ch)
  }

  lemma {:induction false} EscapePlain(s: string, q: char)
    requires forall i :: 0 <= i < |s| ==> PlainChar(s[i], q)
    ensures EscapeAll(s, q) == s
    decreases |s|
  {
    if s != [] {
      EscapePlain(s[1..], q);
      assert s == [s[0]] + s[1..];
    }
  }

  /** Text with no quote, backslash or non-printable character is written
      between single quotes as it is. */
  lemma ReprPlain(s: string)
    requires forall i :: 0 <= i < |s| ==> PlainChar(s[i], '\'')
    ensures ReprText(s) == "'" + s + "'"
  {
    EscapePlain(s, '\'');
  }

  /** A text holding a single quote and no double quote is put in double
      quotes, the single quote left as it is. */
  lemma ReprQuoteExample()
    ensures ReprText("O'Brien") == "\"O'Brien\""
  {
    var s := "O'Brien";
    assert s[1] == '\'';
    assert '"' !in s by {
      forall i | 0 <= i < |s| ensures s[i] != '"' {
        assert i in {0, 1, 2, 3, 4, 5, 6};
      }
    }
    assert QuoteFor(s) == '"';
    assert forall i :: 0 <= i < |s| ==> PlainChar(s[i], '"') by {
      forall i | 0 <= i < |s| ensures PlainChar(s[i], '"') {
        assert i in {0, 1, 2, 3, 4, 5, 6};
      }
    }
    EscapePlain(s, '"');
    assert ReprText(s) == "\"O'Brien\"";
  }

  /** So the tuple a find/replace stores for that text reads back with
      double quotes. */
  lemma StrPairQuoteExample(s: string)
    requires s == "O'Brien"
    ensures Str(Pair(Text(s), false)) == "(\"O'Brien\", False)"
  {
    var r := Repr(Text(s));
    assert r == "\"O'Brien\"" by { ReprQuoteExample(); }
    assert Str(Pair(Text(s), false)) == "(" + r + ", " + BoolText(false) + ")";
  }

  /** A tab is written as the two characters backslash and `t`. */
  lemma ReprTabExample()
    ensures ReprText("a\tb") == "'a\\tb'"
  {
    var s := "a\tb";
    assert QuoteFor(s) == '\'';
    assert EscapeAll(s[2..], '\'') == "b" by { EscapePlain(s[2..], '\''); }
    assert EscapeAll(s[1..], '\'') == "\\tb";
    assert EscapeAll(s, '\'') == "a\\tb";
  }

  /** The stringified form of a tuple always starts with a parenthesis. */
  lemma StrOfPair(v: Cell, f: bool)
    ensures |Str(Pair(v, f))| > 0 && Str(Pair(v, f))[0] == '('
  {
  }

  /** `pd.isna(c)` for a scalar cell. */
  predicate IsMissing(c: Cell) { c.Missing? || c.PyNone? }

  /** The header guard several operations apply: `str(data) == str(column_name)`. */
  predicate IsHeader(c: Cell, column: string) { Str(c) == column }

  /** The header guard when no column name is given (`column_name=None`). */
  predicate Guarded(c: Cell, column: Option<string>) {
    column.Some? && IsHeader(c, column.value)
  }

  predicate IsIntegral(x: real) { x.Floor as real == x }

  /** `_safe_str(val)`: an integral float is written as the integer it holds,
      every other value with `str`. */
  function SafeStr(c: Cell): string
  {
    if c.Float? && IsIntegral(c.x) then IntToString(c.x.Floor) else Str(c)
  }

  /** An integral float is rendered with no decimal point. */
  lemma SafeStrIntegralHasNoPoint(x: real, repr: string)
    requires IsIntegral(x)
    ensures forall i :: 0 <= i < |SafeStr(Float(x, repr))| ==> SafeStr(Float(x, repr))[i] != '.'
  {
    var k := x.Floor;
    if k < 0 {
      var d := NatToString(-k);
      assert IntToString(k) == "-" + d;
      forall i | 0 <= i < |"-" + d| ensures ("-" + d)[i] != '.' {
        if i > 0 { assert ("-" + d)[i] == d[i - 1]; }
      }
    }
  }

  /** Rendering an integral float is rendering the integer it holds; any
      other value, fractional floats included, is rendered with `str`. */
  lemma SafeStrCases(c: Cell)
    ensures c.Float? && IsIntegral(c.x) ==> SafeStr(c) == Str(Int(c.x.Floor))
    ensures !c.Float? || !IsIntegral(c.x) ==> SafeStr(c) == Str(c)
  {
  }

  // ---------------------------------------------------------- equality

  /** What Python's `==` (and pandas hashing) compares: numbers by value, so
      `1 == 1.0 == True`; all missing values together, as pandas does. */
  datatype Key = KMissing | KNum(n: real) | KText(s: string) | KPair(first: Key, flag: bool)

  function KeyOf(c: Cell): Key
  {
    match c
    case Missing => KMissing
    case PyNone => KMissing
    case Text(s) => KText(s)
    case Int(i) => KNum(i as real)
    case Float(x, _) => KNum(x)
    case Bool(b) => KNum(if b then 1.0 else 0.0)
    case Pair(v, f) => KPair(KeyOf(v), f)
  }

  // ----------------------------------------------------------- numbers

  /** The number semantics the model does not interpret: `float(s)` and
      `pd.to_numeric` on text (finite results only), numpy rounding, and
      `str()` of a float. */
  datatype NumberSemantics = NumberSemantics(
    parseFloat: string -> Option<real>,
    textToNumber: string -> Option<real>,
    round: (real, int) -> real,
    show: real -> string)

  /** `pd.to_numeric(c, errors='coerce')` for one cell; `None` is NaN. */
  function ToNumeric(ns: NumberSemantics, c: Cell): Option<real>
  {
    match c
    case Missing => None
    case PyNone => None
    case Text(s) => ns.textToNumber(s)
    case Int(i) => Some(i as real)
    case Float(x, _) => Some(x)
    case Bool(b) => Some(if b then 1.0 else 0.0)
    case Pair(_, _) => None
  }

  /** The cell that holds a numeric result (NaN when there is none). */
  function NumCell(ns: NumberSemantics, v: Option<real>): (c: Cell)
    ensures c.Missing? <==> v.None?
    ensures v.Some? ==> ToNumeric(ns, c) == v
  {
    if v.None? then Missing else Float(v.value, ns.show(v.value))
  }

  // -------------------------------------------------------- exceptions

  /** A raised exception with its `str()` text. */
  datatype Exc = ValueError(msg: string) | TypeError(msg: string) | KeyError(msg: string) | Exception(msg: string)

  /** A Python call either returns a value or raises. */
  datatype Outcome<T> = Returned(value: T) | Raised(exc: Exc)
}
