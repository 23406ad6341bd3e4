/** The pure decoding functions of xlsheet.py: cell-type codes, the error
    literal table, `xsd:boolean`, the `_xHHHH_` escape of ST_Xstring, text
    cooking, shared-string text, serial dates and the final per-type
    conversion of a cell. Python's dynamically typed cell contents become
    `PyValue`; a raised exception becomes `Err` with an `Exc`. */
module XLValues {
  import opened Wrappers
  import opened Calendar
  import opened PyNum
  import opened XLTree

  const XmlSpaceAttr: string := "{http://www.w3.org/XML/1998/namespace}space"
  /** The spreadsheetml namespace prefix ElementTree puts before every tag,
      `{http://schemas.openxmlformats.org/spreadsheetml/2006/main}`. Its
      characters play no part in any result below, so it is left unspecified
      and every property holds whatever the prefix is. */
  const Ssml: string
  const VTag: string := Ssml + "v"
  const FTag: string := Ssml + "f"
  const IsTag: string := Ssml + "is"
  const RTag: string := Ssml + "r"
  const TTag: string := Ssml + "t"

  const XlCellEmpty: int := 0
  const XlCellText: int := 1
  const XlCellNumber: int := 2
  const XlCellDate: int := 3
  const XlCellBoolean: int := 4
  const XlCellError: int := 5

  /** The Python exceptions the reader can raise. */
  datatype Exc =
    | TypeError(msg: string)
    | ValueError(msg: string)
    | KeyError(key: string)
    | IndexError
    | Exception(msg: string)
    | ParseError(part: string)

  const InvalidLiteral: string := "invalid literal"

  /** The value a decoded cell holds. */
  datatype PyValue =
    | PNone
    | PStr(s: string)
    | PInt(i: int)
    | PFloat(x: real)
    | PBool(b: bool)
    | PDateTime(date: Date, ms: int)

  /** `bool(v)`. */
  predicate Truthy(v: PyValue) {
    match v
    case PNone => false
    case PStr(s) => s != ""
    case PInt(i) => i != 0
    case PFloat(x) => x != 0.0
    case PBool(b) => b
    case PDateTime(_, _) => true
  }

  /** `int(v)`. */
  function PyInt(v: PyValue): (r: Result<int, Exc>)
    ensures v.PFloat? ==> r == Ok(Trunc(v.x))
    ensures v.PInt? ==> r == Ok(v.i)
  {
    match v
    case PInt(i) => Ok(i)
    case PFloat(x) => Ok(Trunc(x))
    case PBool(b) => Ok(if b then 1 else 0)
    case PStr(s) => if ParseInt(s).Some? then Ok(ParseInt(s).value) else Err(ValueError(InvalidLiteral))
    case PNone => Err(TypeError("int() argument must be a string or a number"))
    case PDateTime(_, _) => Err(TypeError("int() argument must be a string or a number"))
  }

  /** `float(v)`. */
  function PyFloat(v: PyValue): (r: Result<real, Exc>)
    ensures v.PFloat? ==> r == Ok(v.x)
    ensures v.PInt? ==> r == Ok(v.i as real)
  {
    match v
    case PInt(i) => Ok(i as real)
    case PFloat(x) => Ok(x)
    case PBool(b) => Ok(if b then 1.0 else 0.0)
    case PStr(s) => if ParseFloat(s).Some? then Ok(ParseFloat(s).value) else Err(ValueError(InvalidLiteral))
    case PNone => Err(TypeError("float() argument must be a string or a number"))
    case PDateTime(_, _) => Err(TypeError("float() argument must be a string or a number"))
  }

  /** `error_code_from_text`. */
  const ErrorCodeFromText: map<string, int> := map[
    "#DIV/0!" := 7, "#N/A" := 42, "#NAME?" := 29, "#NULL!" := 0,
    "#NUM!" := 36, "#REF!" := 23, "#VALUE!" := 15]

  /** `_xsd_to_boolean`: 0 or 1, or ValueError for an unexpected literal. */
  function XsdToBoolean(s: Option<string>): (r: Result<int, Exc>)
    ensures r == Ok(1) <==> s.Some? && s.value in {"1", "true", "on"}
    ensures r == Ok(0) <==> s.None? || s.value in {"", "0", "false", "off"}
    ensures r.Ok? || r.error.ValueError?
  {
    if s.None? || s.value == "" then Ok(0)
    else if s.value in {"1", "true", "on"} then Ok(1)
    else if s.value in {"0", "false", "off"} then Ok(0)
    else Err(ValueError("unexpected xsd:boolean value"))
  }

  // ----- The `_xHHHH_` escape -----

  predicate IsHex(c: char) { '0' <= c <= '9' || 'a' <= c <= 'f' || 'A' <= c <= 'F' }

  function HexValue(c: char): (n: int)
    requires IsHex(c)
    ensures 0 <= n < 16
  {
    if '0' <= c <= '9' then c as int - '0' as int
    else if 'a' <= c <= 'f' then c as int - 'a' as int + 10
    else c as int - 'A' as int + 10
  }

  function HexChar(n: int): (c: char)
    requires 0 <= n < 16
    ensures IsHex(c) && HexValue(c) == n
  {
    if n < 10 then ('0' as int + n) as char else ('A' as int + n - 10) as char
  }

  /** `_x` followed by four hex digits and `_` starts at the head of `s`. */
  predicate EscapeAtHead(s: string) {
    |s| >= 7 && s[0] == '_' && s[1] == 'x' && IsHex(s[2]) && IsHex(s[3]) && IsHex(s[4]) && IsHex(s[5]) && s[6] == '_'
  }

  function EscapeCode(s: string): (n: int)
    requires EscapeAtHead(s)
    ensures 0 <= n < 0x1_0000
  {
    ((HexValue(s[2]) * 16 + HexValue(s[3])) * 16 + HexValue(s[4])) * 16 + HexValue(s[5])
  }

  predicate IsSurrogate(n: int) { 0xD800 <= n < 0xE000 }

  /** The text one escape stands for: `chr(code)`. A surrogate code point is
      not a Dafny `char`, so that escape is kept as written. */
  function DecodeEscape(s: string): (r: string)
    requires EscapeAtHead(s)
    ensures |r| == 1 || r == s[..7]
  {
    var n := EscapeCode(s);
    if IsSurrogate(n) then s[..7] else [n as char]
  }

  /** `re.sub(r'_x[0-9A-Fa-f]{4,4}_', repl, s)`: a left-to-right scan that
      replaces every non-overlapping escape. */
  function SubEscapes(s: string): (r: string)
    ensures |r| <= |s|
    decreases |s|
  {
    if s == [] then []
    else if EscapeAtHead(s) then DecodeEscape(s) + SubEscapes(s[7..])
    else [s[0]] + SubEscapes(s[1..])
  }

  /** `_unescape`. */
  function Unescape(s: string): (r: string)
    ensures '_' !in s ==> r == s
  {
    if '_' in s then SubEscapes(s) else s
  }

  /** The `"_" in s` test of `_unescape` is only a shortcut: the scan leaves
      text without underscores unchanged anyway. */
  lemma {:induction false} SubEscapesWithoutUnderscore(s: string)
    requires '_' !in s
    ensures SubEscapes(s) == s
    decreases |s|
  {
    if s != [] {
      assert s[0] != '_';
      assert '_' !in s[1..] by {
        forall i | 0 <= i < |s[1..]| ensures s[1..][i] != '_' {
          assert s[1..][i] == s[i + 1];
        }
      }
      SubEscapesWithoutUnderscore(s[1..]);
    }
  }

  lemma UnescapeIsSubEscapes(s: string)
    ensures Unescape(s) == SubEscapes(s)
  {
    if '_' !in s {
      SubEscapesWithoutUnderscore(s);
    }
  }

  /** The characters a writer escapes: the underscore itself and the control
      characters other than tab, line feed and carriage return. */
  predicate NeedsEscape(c: char) {
    c == '_' || (c < ' ' && c != '\t' && c != '\n' && c != '\r')
  }

  /** `_xHHHH_` for a character of the basic plane. */
  function EscapeChar(c: char): (r: string)
    requires c as int < 0x1_0000
    ensures EscapeAtHead(r) && |r| == 7 && EscapeCode(r) == c as int
  {
    var n := c as int;
    var d0, d1, d2, d3 := n / 4096, n / 256 % 16, n / 16 % 16, n % 16;
    HexDigitsOf(n);
    ['_', 'x', HexChar(d0), HexChar(d1), HexChar(d2), HexChar(d3), '_']
  }

  lemma HexDigitsOf(n: int)
    requires 0 <= n < 0x1_0000
    ensures 0 <= n / 4096 < 16
    ensures ((n / 4096 * 16 + n / 256 % 16) * 16 + n / 16 % 16) * 16 + n % 16 == n
  {
    assert n / 256 == n / 4096 * 16 + n / 256 % 16;
    assert n / 16 == n / 256 * 16 + n / 16 % 16;
    assert n == n / 16 * 16 + n % 16;
  }

  /** The ST_Xstring encoding of `s`. */
  function Escape(s: string): (r: string)
    ensures |r| >= |s|
  {
    if s == [] then []
    else (if NeedsEscape(s[0]) then EscapeChar(s[0]) else [s[0]]) + Escape(s[1..])
  }

  /** Decoding undoes encoding: `_unescape(escape(s)) == s`. */
  lemma {:induction false} UnescapeEscape(s: string)
    ensures Unescape(Escape(s)) == s
  {
    UnescapeIsSubEscapes(Escape(s));
    SubEscapesEscape(s);
  }

  lemma {:induction false} SubEscapesEscape(s: string)
    ensures SubEscapes(Escape(s)) == s
  {
    if s != [] {
      var rest := Escape(s[1..]);
      if NeedsEscape(s[0]) {
        var block := EscapeChar(s[0]);
        var t := block + rest;
        assert t[..7] == block;
        assert t[7..] == rest;
        assert EscapeAtHead(t);
        assert EscapeCode(t) == s[0] as int;
        assert DecodeEscape(t) == [s[0]];
      } else {
        var t := [s[0]] + rest;
        assert t[1..] == rest;
        assert !EscapeAtHead(t);
      }
      SubEscapesEscape(s[1..]);
    }
  }

  // ----- Text of `t` elements -----

  predicate IsXmlWhitespace(c: char) { c == '\t' || c == '\n' || c == ' ' || c == '\r' }

  /** The number of leading characters `str.strip("\t\n \r")` removes. */
  function LeadingSpace(t: string): (n: nat)
    ensures n <= |t|
    ensures forall i :: 0 <= i < n ==> IsXmlWhitespace(t[i])
    ensures n < |t| ==> !IsXmlWhitespace(t[n])
  {
    if t == [] || !IsXmlWhitespace(t[0]) then 0 else 1 + LeadingSpace(t[1..])
  }

  /** The number of trailing characters `str.strip("\t\n \r")` removes. */
  function TrailingSpace(t: string): (n: nat)
    ensures n <= |t|
    ensures forall i :: |t| - n <= i < |t| ==> IsXmlWhitespace(t[i])
    ensures n < |t| ==> !IsXmlWhitespace(t[|t| - n - 1])
  {
    if t == [] || !IsXmlWhitespace(t[|t| - 1]) then 0 else 1 + TrailingSpace(t[..|t| - 1])
  }

  /** When some character is not whitespace, the leading and the trailing
      whitespace do not meet. */
  lemma StripBounds(t: string)
    requires LeadingSpace(t) < |t|
    ensures LeadingSpace(t) < |t| - TrailingSpace(t)
  {
    var a := LeadingSpace(t);
    assert !IsXmlWhitespace(t[a]);
  }

  /** `t.strip("\t\n \r")`: the infix between the leading and the trailing
      whitespace; empty when `t` is all whitespace. */
  function Strip(t: string): string {
    var a := LeadingSpace(t);
    if a == |t| then []
    else
      StripBounds(t);
      t[a..|t| - TrailingSpace(t)]
  }

  /** The stripped text neither starts nor ends with whitespace, is empty
      exactly when the text is all whitespace, and otherwise is what lies
      between the removed leading and trailing whitespace. */
  lemma StripSpec(t: string)
    ensures var r := Strip(t);
      r == [] || (!IsXmlWhitespace(r[0]) && !IsXmlWhitespace(r[|r| - 1]))
    ensures Strip(t) == [] <==> forall i :: 0 <= i < |t| ==> IsXmlWhitespace(t[i])
    ensures Strip(t) != [] ==> t == t[..LeadingSpace(t)] + Strip(t) + t[|t| - TrailingSpace(t)..]
  {
    var a := LeadingSpace(t);
    if a < |t| {
      var b := TrailingSpace(t);
      StripBounds(t);
      assert Strip(t) == t[a..|t| - b];
      SpaceStops(t);
      InfixEnds(t, a, b);
    }
  }

  /** The characters where the leading and the trailing whitespace stop. */
  lemma SpaceStops(t: string)
    requires LeadingSpace(t) < |t| - TrailingSpace(t)
    ensures !IsXmlWhitespace(t[LeadingSpace(t)])
    ensures !IsXmlWhitespace(t[|t| - TrailingSpace(t) - 1])
  {
  }

  /** The infix `t[a..|t| - b]` starts with `t[a]`, ends with `t[|t| - b - 1]`
      and puts `t` back together with the prefix and the suffix. */
  lemma InfixEnds(t: string, a: nat, b: nat)
    requires a < |t| - b
    ensures var r := t[a..|t| - b];
      r != [] && r[0] == t[a] && r[|r| - 1] == t[|t| - b - 1] && t == t[..a] + r + t[|t| - b..]
  {
  }

  /** `_cook_text(elem)`. */
  function CookText(e: Element): (r: string)
    ensures e.text.None? ==> r == ""
  {
    if e.text.None? then ""
    else
      var t := if Attr(e, XmlSpaceAttr) != Some("preserve") then Strip(e.text.value) else e.text.value;
      Unescape(t)
  }

  /** Cooking recovers any text written with `Escape`: exactly under
      `xml:space="preserve"`, and without it whenever the text does not
      begin or end with whitespace. */
  lemma CookEscaped(e: Element, s: string)
    requires e.text == Some(Escape(s))
    requires Attr(e, XmlSpaceAttr) == Some("preserve") ||
             s == [] || (!IsXmlWhitespace(s[0]) && !IsXmlWhitespace(s[|s| - 1]))
    ensures CookText(e) == s
  {
    UnescapeEscape(s);
    if Attr(e, XmlSpaceAttr) != Some("preserve") && s != [] {
      EscapeEnds(s);
    }
  }

  lemma {:induction false} EscapeEnds(s: string)
    requires s != [] && !IsXmlWhitespace(s[0]) && !IsXmlWhitespace(s[|s| - 1])
    ensures Strip(Escape(s)) == Escape(s)
  {
    var e := Escape(s);
    EscapeLast(s);
    assert !IsXmlWhitespace(e[0]);
    assert LeadingSpace(e) == 0;
    assert TrailingSpace(e) == 0;
    assert e[0..|e| - 0] == e;
  }

  lemma {:induction false} EscapeLast(s: string)
    requires s != []
    ensures Escape(s) != []
    ensures Escape(s)[|Escape(s)| - 1] == (if NeedsEscape(s[|s| - 1]) then '_' else s[|s| - 1])
  {
    if |s| > 1 {
      EscapeLast(s[1..]);
    }
  }

  /** `[t]` when the cooked text is non-empty (the `if t:` of the loop). */
  function NonEmpty(t: string): (fs: seq<string>)
    ensures forall i :: 0 <= i < |fs| ==> fs[i] != ""
  {
    if t != "" then [t] else []
  }

  /** The cooked texts `_get_text_from_si_or_is` collects from the children
      of an `si` or `is` element: the non-empty direct `t` children and the
      non-empty `t` children of `r` runs, in document order. */
  function SiFragments(es: seq<Element>): (fs: seq<string>)
    ensures forall i :: 0 <= i < |fs| ==> fs[i] != ""
  {
    if es == [] then [] else SiFragments(es[..|es| - 1]) + ChildFragments(es[|es| - 1])
  }

  /** What one child of an `si` or `is` element contributes. */
  function ChildFragments(c: Element): (fs: seq<string>)
    ensures forall i :: 0 <= i < |fs| ==> fs[i] != ""
  {
    if c.tag == TTag then NonEmpty(CookText(c))
    else if c.tag == RTag then RunFragments(c.children)
    else []
  }

  /** The non-empty cooked `t` children of one `r` run. */
  function RunFragments(ts: seq<Element>): (fs: seq<string>)
    ensures forall i :: 0 <= i < |fs| ==> fs[i] != ""
  {
    if ts == [] then []
    else RunFragments(ts[..|ts| - 1]) + (if ts[|ts| - 1].tag == TTag then NonEmpty(CookText(ts[|ts| - 1])) else [])
  }

  /** `''.join(fs)`. */
  function Concat(fs: seq<string>): string {
    if fs == [] then "" else fs[0] + Concat(fs[1..])
  }

  lemma {:induction false} ConcatAppend(a: seq<string>, b: seq<string>)
    ensures Concat(a + b) == Concat(a) + Concat(b)
  {
    if a == [] {
      assert a + b == b;
    } else {
      assert (a + b)[1..] == a[1..] + b;
      ConcatAppend(a[1..], b);
    }
  }

  /** `_get_text_from_si_or_is(elem)`. */
  function SiText(e: Element): string {
    Concat(SiFragments(e.children))
  }

  /** A plain `<si><t>s</t></si>` written with `Escape` yields `s` back. */
  lemma SiTextPlain(si: Element, t: Element, s: string)
    requires si.children == [t] && t.tag == TTag && t.text == Some(Escape(s))
    requires Attr(t, XmlSpaceAttr) == Some("preserve")
    ensures SiText(si) == s
  {
    CookEscaped(t, s);
    assert si.children[..0] == [];
    if s != "" {
      assert SiFragments(si.children) == [s];
      assert Concat([s]) == s + Concat([]);
    }
  }

  /** The cooked text of one `r` run. */
  function RunText(run: Element): string {
    Concat(RunFragments(run.children))
  }

  function ConcatRuns(runs: seq<Element>): string {
    if runs == [] then "" else ConcatRuns(runs[..|runs| - 1]) + RunText(runs[|runs| - 1])
  }

  /** Rich text: an `si` made only of runs concatenates the runs' texts. */
  lemma {:induction false} SiTextRuns(runs: seq<Element>)
    requires forall i :: 0 <= i < |runs| ==> runs[i].tag == RTag
    ensures Concat(SiFragments(runs)) == ConcatRuns(runs)
  {
    if runs != [] {
      var init := runs[..|runs| - 1];
      var last := runs[|runs| - 1];
      assert RTag[|RTag| - 1] != TTag[|TTag| - 1];
      assert ChildFragments(last) == RunFragments(last.children);
      SiTextRuns(init);
      ConcatAppend(SiFragments(init), RunFragments(last.children));
    }
  }

  // ----- Serial dates -----

  const DayMs: int := 86400000

  /** A `datetime`: a date and the milliseconds since its midnight. */
  datatype DateTime = DateTime(date: Date, ms: int)

  /** 1899-12-31 below serial 60, 1899-12-30 from there on, so that the
      non-existent 1900-02-29 (serial 60) is absorbed. */
  function Epoch(x: real): (d: Date)
    ensures Valid(d)
  {
    if x < 60.0 then Date(1899, 12, 31) else Date(1899, 12, 30)
  }

  /** `days * 86400000 + round(fraction * 86400000)`, the offset from the
      epoch in milliseconds. */
  function SerialMs(x: real): (n: int)
    ensures -0.5 <= n as real - x * DayMs as real <= 0.5
  {
    var days := Trunc(x);
    days * DayMs + RoundHalfEven((x - days as real) * DayMs as real)
  }

  /** `_xldate_as_datetime(x)`; `None` is the OverflowError raised when the
      result leaves the years 1..9999. */
  function XLDate(x: real): (r: Option<DateTime>)
    ensures r.None? <==> !(1 <= Ordinal(Epoch(x)) + SerialMs(x) / DayMs <= MaxOrdinal)
    ensures r.Some? ==> Valid(r.value.date) && 0 <= r.value.ms < DayMs
    ensures r.Some? ==>
      var n := (Ordinal(r.value.date) - Ordinal(Epoch(x))) * DayMs + r.value.ms;
      -0.5 <= n as real - x * DayMs as real <= 0.5
  {
    var n := SerialMs(x);
    match AddDays(Epoch(x), n / DayMs)
    case None => None
    case Some(d) => Some(DateTime(d, n % DayMs))
  }

  /** A whole serial `n` is the date `n` days after the epoch, at midnight. */
  lemma XLDateWhole(n: int)
    requires 1 <= Ordinal(Epoch(n as real)) + n <= MaxOrdinal
    ensures XLDate(n as real).Some?
    ensures XLDate(n as real).value.ms == 0
    ensures Ordinal(XLDate(n as real).value.date) == Ordinal(Epoch(n as real)) + n
  {
    assert Trunc(n as real) == n;
    assert SerialMs(n as real) == n * DayMs;
  }

  /** The 1900 leap-year quirk: serials 59 and 60 are both 1900-02-28, and
      serial 61 is 1900-03-01. */
  lemma XLDateLeapQuirk()
    ensures XLDate(59.0) == Some(DateTime(Date(1900, 2, 28), 0))
    ensures XLDate(60.0) == Some(DateTime(Date(1900, 2, 28), 0))
    ensures XLDate(61.0) == Some(DateTime(Date(1900, 3, 1), 0))
  {
    assert Ordinal(Date(1899, 12, 31)) == 693595;
    assert Ordinal(Date(1899, 12, 30)) == 693594;
    assert Ordinal(Date(1900, 2, 28)) == 693654;
    assert Ordinal(Date(1900, 3, 1)) == 693655;
    XLDateWhole(59);
    XLDateWhole(60);
    XLDateWhole(61);
    OrdinalInjective(XLDate(59.0).value.date, Date(1900, 2, 28));
    OrdinalInjective(XLDate(60.0).value.date, Date(1900, 2, 28));
    OrdinalInjective(XLDate(61.0).value.date, Date(1900, 3, 1));
  }

  // ----- `_parse_cell` -----

  /** `_parse_cell(contents, ctype)`: the Python value a cell ends up as. */
  function ParseCell(contents: PyValue, ctype: int): (r: Result<PyValue, Exc>)
    ensures ctype == XlCellError || ctype == XlCellEmpty ==> r == Ok(PNone)
    ensures ctype == XlCellText ==> r == Ok(if contents == PStr("") then PNone else contents)
    ensures ctype == XlCellBoolean ==> r == Ok(PBool(Truthy(contents)))
    ensures ctype == XlCellNumber && contents.PFloat? ==>
      r == Ok(if contents.x == Trunc(contents.x) as real then PInt(Trunc(contents.x)) else contents)
  {
    if ctype == XlCellDate then
      var x :- PyFloat(contents);
      match XLDate(x)
      case None => Ok(contents)
      case Some(dt) =>
        // The 1904 test always holds (`epoch_1904` is a truthy datetime), and
        // the `datetime.time(...)` call that follows raises TypeError.
        if dt.date == Date(1904, 1, 1) then Err(TypeError("descriptor 'time' requires a 'datetime.datetime' object"))
        else Ok(PDateTime(dt.date, dt.ms))
    else if ctype == XlCellError || ctype == XlCellEmpty then Ok(PNone)
    else if ctype == XlCellText && contents == PStr("") then Ok(PNone)
    else if ctype == XlCellBoolean then Ok(PBool(Truthy(contents)))
    else if ctype == XlCellNumber then
      var v :- PyInt(contents);
      if NumEquals(v, contents) then Ok(PInt(v)) else Ok(contents)
    else Ok(contents)
  }

  /** `v == contents` between an int and a cell value. */
  predicate NumEquals(v: int, contents: PyValue) {
    match contents
    case PInt(i) => i == v
    case PFloat(x) => x == v as real
    case PBool(b) => v == (if b then 1 else 0)
    case _ => false
  }

  /** A DATE cell becomes the serial's date, unless that date is outside
      `datetime`'s range (the number is kept) or is 1904-01-01 (TypeError). */
  lemma ParseCellDate(x: real)
    ensures XLDate(x).None? ==> ParseCell(PFloat(x), XlCellDate) == Ok(PFloat(x))
    ensures XLDate(x).Some? && XLDate(x).value.date == Date(1904, 1, 1) ==>
      ParseCell(PFloat(x), XlCellDate).Err? && ParseCell(PFloat(x), XlCellDate).error.TypeError?
    ensures XLDate(x).Some? && XLDate(x).value.date != Date(1904, 1, 1) ==>
      ParseCell(PFloat(x), XlCellDate) == Ok(PDateTime(XLDate(x).value.date, XLDate(x).value.ms))
  {
  }
}
