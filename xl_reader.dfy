/** `_XLsheetReader` of xlsheet.py: the reader object whose fields are filled
    while the package's parts are walked (the style table from `cellXfs`
    and the shared-string table), and the decoding of a worksheet's rows
    with them. The reader's fields are `Reader`; `ReaderState` is their
    value, on which the specification functions are stated. */
module XLReader {
  import opened Wrappers
  import opened PyDict
  import opened PyNum
  import opened XLTree
  import opened XLValues
  import opened XLPackage

  datatype ReaderState = ReaderState(
    sharedStrings: seq<string>,
    xfIndexToXlType: map<int, int>,
    xfType: Option<int>,
    xfCounts: seq<int>)

  /** The fields as `__init__` sets them. */
  const InitialState: ReaderState := ReaderState([], map[0 := XlCellNumber], None, [0, 0])

  /** What the fields keep at all times: two counters of which only the
      `cellXfs` one moves, and a style table that maps index 0 and indices
      handed out so far, and nothing else, to NUMBER or DATE. (An index
      whose `numFmtId` failed to parse is handed out but never mapped.) */
  predicate ValidState(st: ReaderState) {
    |st.xfCounts| == 2 && st.xfCounts[0] == 0 && st.xfCounts[1] >= 0 &&
    0 in st.xfIndexToXlType &&
    (forall k :: k in st.xfIndexToXlType ==> k == 0 || 0 <= k < st.xfCounts[1]) &&
    (forall k :: k in st.xfIndexToXlType ==> st.xfIndexToXlType[k] == XlCellNumber || st.xfIndexToXlType[k] == XlCellDate)
  }

  /** The shared strings play no part in validity. */
  lemma ValidStateStrings(st: ReaderState, ss: seq<string>)
    requires ValidState(st)
    ensures ValidState(st.(sharedStrings := ss))
  {
  }

  lemma InitialStateValid()
    ensures ValidState(InitialState)
  {
  }

  // ----- Styles: do_cellstyle, do_cellxfs, do_xf -----

  /** `self.fmt_is_date`: the built-in date formats 14..22 and 45..47. */
  predicate IsDateFormat(numFmtId: int) {
    14 <= numFmtId <= 22 || 45 <= numFmtId <= 47
  }

  /** `self.fmt_is_date.get(numFmtId, 0) + 2`. */
  function XfCellType(numFmtId: int): (t: int)
    ensures t == XlCellDate <==> IsDateFormat(numFmtId)
    ensures t == XlCellNumber <==> !IsDateFormat(numFmtId)
  {
    (if IsDateFormat(numFmtId) then 1 else 0) + 2
  }

  /** `int(elem.get("numFmtId", 0))`. */
  function NumFmtId(e: Element): (r: Result<int, Exc>)
    ensures Attr(e, "numFmtId").None? ==> r == Ok(0)
    ensures r.Err? ==> r.error == ValueError(InvalidLiteral)
  {
    match Attr(e, "numFmtId")
    case None => Ok(0)
    case Some(s) => if ParseInt(s).Some? then Ok(ParseInt(s).value) else Err(ValueError(InvalidLiteral))
  }

  /** `do_xf(elem)`: outside `cellXfs` nothing happens; inside, the record
      takes the next index (the counter moves even when `numFmtId` then
      fails to parse) and the table maps that index to its cell type. */
  function XfStep(st: ReaderState, e: Element): (r: (ReaderState, Option<Exc>))
    requires ValidState(st)
    ensures ValidState(r.0)
    ensures st.xfType != Some(1) ==> r == (st, None)
    ensures st.xfType == Some(1) ==> r.0.xfCounts[1] == st.xfCounts[1] + 1
    ensures r.1.None? <==> st.xfType != Some(1) || NumFmtId(e).Ok?
    ensures st.xfType == Some(1) && NumFmtId(e).Ok? ==>
      r.0.xfIndexToXlType == st.xfIndexToXlType[st.xfCounts[1] := XfCellType(NumFmtId(e).value)]
    ensures r.0.sharedStrings == st.sharedStrings && r.0.xfType == st.xfType
  {
    if st.xfType != Some(1) then (st, None)
    else
      var xfx := st.xfCounts[1];
      var st1 := st.(xfCounts := st.xfCounts[1 := xfx + 1]);
      match NumFmtId(e)
      case Err(x) => (st1, Some(x))
      case Ok(n) => (st1.(xfIndexToXlType := st1.xfIndexToXlType[xfx := XfCellType(n)]), None)
  }

  // ----- Cells: do_child, get_value, get_cell, do_row -----

  const UnknownCellType: string := "Unknown cell type"

  /** `do_child(t, child, cell_type)`: the text a child contributes. */
  function DoChild(t: Option<string>, child: Element, cellType: string): (r: Result<Option<string>, Exc>)
    ensures child.tag == FTag ==> r == Ok(t)
    ensures child.tag == VTag && cellType in {"n", "s", "b", "e", "inlineStr"} ==> r == Ok(child.text)
    ensures child.tag == VTag && cellType == "str" ==> r == Ok(Some(CookText(child)))
    ensures child.tag != VTag && child.tag != FTag ==> r.Err?
  {
    VTagIsNotFTag();
    if child.tag == VTag then
      if cellType in {"n", "s", "b", "e", "inlineStr"} then Ok(child.text)
      else if cellType == "str" then Ok(Some(CookText(child)))
      else Err(Exception(UnknownCellType))
    else if child.tag == FTag then Ok(t)
    // `_get_text_from_si_or_is(self, child)` iterates over the reader object.
    else if child.tag == IsTag && cellType == "inlineStr" then Err(TypeError("'_XLsheetReader' object is not iterable"))
    else Err(Exception("bad child tag"))
  }

  lemma VTagIsNotFTag()
    ensures VTag != FTag
  {
    assert VTag[|VTag| - 1] != FTag[|FTag| - 1];
  }

  /** The `t` that `for child in cell_elem: t = self.do_child(t, child, cell_type)` ends with. */
  function ChildrenText(cs: seq<Element>, cellType: string): (r: Result<Option<string>, Exc>)
    ensures (forall i :: 0 <= i < |cs| ==> cs[i].tag == FTag) ==> r == Ok(None)
    ensures r.Ok? && r.value.Some? ==> exists i :: 0 <= i < |cs| && cs[i].tag == VTag
  {
    if cs == [] then Ok(None)
    else
      var t :- ChildrenText(cs[..|cs| - 1], cellType);
      DoChild(t, cs[|cs| - 1], cellType)
  }

  /** The loop of `do_row` over the children of one cell. */
  method CellText(cs: seq<Element>, cellType: string) returns (r: Result<Option<string>, Exc>)
    ensures r == ChildrenText(cs, cellType)
  {
    var t: Option<string> := None;
    for j := 0 to |cs|
      invariant ChildrenText(cs[..j], cellType) == Ok(t)
    {
      assert cs[..j + 1][..j] == cs[..j];
      var next := DoChild(t, cs[j], cellType);
      if next.Err? {
        ChildrenTextPrefixErr(cs, cellType, j + 1);
        return Err(next.error);
      }
      t := next.value;
    }
    assert cs[..|cs|] == cs;
    r := Ok(t);
  }

  lemma {:induction false} ChildrenTextPrefixErr(cs: seq<Element>, cellType: string, i: nat)
    requires i <= |cs| && ChildrenText(cs[..i], cellType).Err?
    ensures ChildrenText(cs, cellType) == ChildrenText(cs[..i], cellType)
    decreases |cs| - i
  {
    if i < |cs| {
      assert cs[..|cs| - 1][..i] == cs[..i];
      ChildrenTextPrefixErr(cs[..|cs| - 1], cellType, i);
    } else {
      assert cs[..i] == cs;
    }
  }

  /** With only `v` and `f` children, a cell's text is that of its last `v`
      child (formulas never change it), or None without one. */
  lemma {:induction false} ChildrenTextLastValue(cs: seq<Element>, cellType: string)
    requires cellType in {"n", "s", "b", "e", "inlineStr"}
    requires forall i :: 0 <= i < |cs| ==> cs[i].tag == VTag || cs[i].tag == FTag
    ensures ChildrenText(cs, cellType).Ok?
    ensures (forall i :: 0 <= i < |cs| ==> cs[i].tag == FTag) ==> ChildrenText(cs, cellType) == Ok(None)
    ensures forall i :: 0 <= i < |cs| && cs[i].tag == VTag && (forall j :: i < j < |cs| ==> cs[j].tag == FTag) ==>
      ChildrenText(cs, cellType) == Ok(cs[i].text)
  {
    if cs != [] {
      var init := cs[..|cs| - 1];
      ChildrenTextLastValue(init, cellType);
      forall i | 0 <= i < |init| && init[i].tag == VTag && (forall j :: i < j < |init| ==> init[j].tag == FTag)
        ensures ChildrenText(init, cellType) == Ok(cs[i].text)
      {
        assert init[i] == cs[i];
      }
    }
  }

  /** `get_cell(ctype, value, xf_index)`: without a type, the style table
      decides, and a style index missing from it raises KeyError. */
  function GetCell(st: ReaderState, ctype: Option<int>, value: PyValue, xfIndex: int): (r: Result<PyValue, Exc>)
    ensures ctype.None? && xfIndex !in st.xfIndexToXlType ==> r == Err(KeyError(Show(xfIndex)))
  {
    match ctype
    case Some(c) => ParseCell(value, c)
    case None =>
      if xfIndex in st.xfIndexToXlType then ParseCell(value, st.xfIndexToXlType[xfIndex])
      else Err(KeyError(Show(xfIndex)))
  }

  /** `sharedstrings[i]` with Python's negative indices. */
  function PyIndex(ss: seq<string>, i: int): (r: Result<string, Exc>)
    ensures r.Ok? <==> -|ss| <= i < |ss|
    ensures 0 <= i < |ss| ==> r == Ok(ss[i])
    ensures -|ss| <= i < 0 ==> r == Ok(ss[|ss| + i])
  {
    if 0 <= i < |ss| then Ok(ss[i])
    else if -|ss| <= i < 0 then Ok(ss[|ss| + i])
    else Err(IndexError)
  }

  /** `get_value(t, cell_type, xf_index)`. */
  function GetValue(st: ReaderState, t: Option<string>, cellType: string, xfIndex: int): (r: Result<PyValue, Exc>)
    // A number cell is decoded through the style table; no fallback.
    ensures cellType == "n" && t.Some? && ParseFloat(t.value).Some? ==>
      r == (if xfIndex in st.xfIndexToXlType then ParseCell(PFloat(ParseFloat(t.value).value), st.xfIndexToXlType[xfIndex])
            else Err(KeyError(Show(xfIndex))))
    // Number and shared-string cells need value text.
    ensures (cellType == "n" || cellType == "s") && (t.None? || t.value == "") ==> r == Err(Exception(UnknownCellType))
    ensures cellType == "s" && t.Some? && ParseInt(t.value).Some? ==>
      var i := ParseInt(t.value).value;
      r == (if -|st.sharedStrings| <= i < |st.sharedStrings| then
              var s := PyIndex(st.sharedStrings, i).value; Ok(if s == "" then PNone else PStr(s))
            else Err(IndexError))
    // Text cells: missing or empty text is None.
    ensures cellType in {"str", "inlineStr"} ==> r == Ok(if t.None? || t.value == "" then PNone else PStr(t.value))
    ensures cellType == "b" ==> (r.Ok? <==> XsdToBoolean(t).Ok?)
    ensures cellType == "b" && r.Ok? ==> r.value == PBool(XsdToBoolean(t).value == 1)
    // Error cells: missing text is #N/A; every known literal becomes None.
    ensures cellType == "e" ==>
      var key := if t.None? then "#N/A" else t.value;
      r == (if key in ErrorCodeFromText then Ok(PNone) else Err(KeyError(key)))
    ensures cellType !in {"n", "s", "str", "inlineStr", "b", "e"} ==> r == Err(Exception(UnknownCellType))
  {
    var truthy := t.Some? && t.value != "";
    if truthy && cellType == "n" then
      match ParseFloat(t.value)
      case None => Err(ValueError(InvalidLiteral))
      case Some(v) => GetCell(st, None, PFloat(v), xfIndex)
    else if truthy && cellType == "s" then
      match ParseInt(t.value)
      case None => Err(ValueError(InvalidLiteral))
      case Some(i) =>
        var s :- PyIndex(st.sharedStrings, i);
        GetCell(st, Some(XlCellText), PStr(s), xfIndex)
    else if cellType == "str" || cellType == "inlineStr" then
      GetCell(st, Some(XlCellText), if t.None? then PNone else PStr(t.value), xfIndex)
    else if cellType == "b" then
      var v :- XsdToBoolean(t);
      GetCell(st, Some(XlCellBoolean), PInt(v), xfIndex)
    else if cellType == "e" then
      var key := if t.None? then "#N/A" else t.value;
      if key in ErrorCodeFromText then GetCell(st, Some(XlCellError), PInt(ErrorCodeFromText[key]), xfIndex)
      else Err(KeyError(key))
    else Err(Exception(UnknownCellType))
  }

  /** In a valid state, a number cell is an int when its value is whole and
      its style is NUMBER, the float otherwise; under a DATE style it is a
      datetime, the float when the date overflows, or the 1904 TypeError. */
  lemma NumberCell(st: ReaderState, text: string, xfIndex: int)
    requires ValidState(st) && text != "" && ParseFloat(text).Some? && xfIndex in st.xfIndexToXlType
    ensures var x := ParseFloat(text).value;
      var r := GetValue(st, Some(text), "n", xfIndex);
      if st.xfIndexToXlType[xfIndex] == XlCellNumber then
        r == Ok(if x == Trunc(x) as real then PInt(Trunc(x)) else PFloat(x))
      else
        (XLDate(x).None? ==> r == Ok(PFloat(x))) &&
        (XLDate(x).Some? && XLDate(x).value.date != Calendar.Date(1904, 1, 1) ==>
          r == Ok(PDateTime(XLDate(x).value.date, XLDate(x).value.ms)))
  {
    ParseCellDate(ParseFloat(text).value);
  }

  /** `int(cell_elem.get("s", 0))`. */
  function StyleIndex(cell: Element): (r: Result<int, Exc>)
    ensures Attr(cell, "s").None? ==> r == Ok(0)
  {
    match Attr(cell, "s")
    case None => Ok(0)
    case Some(s) => if ParseInt(s).Some? then Ok(ParseInt(s).value) else Err(ValueError(InvalidLiteral))
  }

  /** `cell_elem.get("t", "n")`. */
  function CellType(cell: Element): (r: string)
    ensures Attr(cell, "t").None? ==> r == "n"
  {
    match Attr(cell, "t")
    case None => "n"
    case Some(t) => t
  }

  /** One iteration of `do_row`'s loop: the value of one cell element. */
  function DecodeCell(st: ReaderState, cell: Element): (r: Result<PyValue, Exc>)
    ensures StyleIndex(cell).Err? ==> r == Err(StyleIndex(cell).error)
    ensures r.Ok? ==> StyleIndex(cell).Ok? && ChildrenText(cell.children, CellType(cell)).Ok?
  {
    var xf :- StyleIndex(cell);
    var t :- ChildrenText(cell.children, CellType(cell));
    GetValue(st, t, CellType(cell), xf)
  }

  /** `do_row(row_elem)`: one value per child element, in order (cell
      references are not consulted, so nothing is padded); the first
      failing cell aborts the row. */
  function RowSpec(st: ReaderState, cells: seq<Element>): (r: Result<seq<PyValue>, Exc>)
    ensures r.Ok? ==> |r.value| == |cells|
  {
    if cells == [] then Ok([])
    else
      var init :- RowSpec(st, cells[..|cells| - 1]);
      var v :- DecodeCell(st, cells[|cells| - 1]);
      Ok(init + [v])
  }

  lemma {:induction false} RowSpecStep(st: ReaderState, cells: seq<Element>, i: nat, values: seq<PyValue>)
    requires i < |cells| && RowSpec(st, cells[..i]) == Ok(values)
    ensures DecodeCell(st, cells[i]).Err? ==> RowSpec(st, cells[..i + 1]) == Err(DecodeCell(st, cells[i]).error)
    ensures DecodeCell(st, cells[i]).Ok? ==> RowSpec(st, cells[..i + 1]) == Ok(values + [DecodeCell(st, cells[i]).value])
  {
    assert cells[..i + 1][..i] == cells[..i];
  }

  /** A row that decodes holds, at each position, the value of the cell
      there. */
  lemma {:induction false} RowSpecAt(st: ReaderState, cells: seq<Element>, i: nat)
    requires RowSpec(st, cells).Ok? && i < |cells|
    ensures DecodeCell(st, cells[i]) == Ok(RowSpec(st, cells).value[i])
  {
    var n := |cells| - 1;
    var init := RowSpec(st, cells[..n]);
    var d := DecodeCell(st, cells[n]);
    assert init.Ok? && d.Ok? && RowSpec(st, cells).value == init.value + [d.value];
    if i < n {
      RowSpecAt(st, cells[..n], i);
      assert cells[..n][i] == cells[i];
      assert (init.value + [d.value])[i] == init.value[i];
      assert DecodeCell(st, cells[i]) == Ok(init.value[i]);
    } else {
      assert i == n;
      assert (init.value + [d.value])[n] == d.value;
    }
  }

  lemma {:induction false} RowSpecPrefixErr(st: ReaderState, cells: seq<Element>, i: nat)
    requires i <= |cells| && RowSpec(st, cells[..i]).Err?
    ensures RowSpec(st, cells) == RowSpec(st, cells[..i])
    decreases |cells| - i
  {
    if i < |cells| {
      assert cells[..|cells| - 1][..i] == cells[..i];
      RowSpecPrefixErr(st, cells[..|cells| - 1], i);
    } else {
      assert cells[..i] == cells;
    }
  }

  /** A row whose cells all decode yields those values; otherwise the row
      fails with the first failing cell's exception. */
  lemma {:induction false} RowSpecFirstError(st: ReaderState, cells: seq<Element>, i: nat)
    requires i < |cells| && DecodeCell(st, cells[i]).Err?
    requires forall j :: 0 <= j < i ==> DecodeCell(st, cells[j]).Ok?
    ensures RowSpec(st, cells) == Err(DecodeCell(st, cells[i]).error)
  {
    RowSpecPrefixOk(st, cells[..i]);
    assert cells[..i + 1][..i] == cells[..i];
    RowSpecPrefixErr(st, cells, i + 1);
  }

  lemma {:induction false} RowSpecPrefixOk(st: ReaderState, cells: seq<Element>)
    requires forall j :: 0 <= j < |cells| ==> DecodeCell(st, cells[j]).Ok?
    ensures RowSpec(st, cells).Ok?
  {
    if cells != [] {
      RowSpecPrefixOk(st, cells[..|cells| - 1]);
    }
  }

  const RowTag: string := Ssml + "row"
  const SiTag: string := Ssml + "si"

  /** The rows of `load_data`, one per `row` element handed to the loop. */
  function RowsSpec(st: ReaderState, rows: seq<Element>): (r: Result<seq<seq<PyValue>>, Exc>)
    ensures r.Ok? ==> |r.value| == |rows|
  {
    if rows == [] then Ok([])
    else
      var init :- RowsSpec(st, rows[..|rows| - 1]);
      var v :- RowSpec(st, rows[|rows| - 1].children);
      Ok(init + [v])
  }

  /** When the rows decode, tuple i is the decoding of row i. */
  lemma {:induction false} RowsSpecAt(st: ReaderState, rows: seq<Element>, i: nat)
    requires RowsSpec(st, rows).Ok? && i < |rows|
    ensures RowSpec(st, rows[i].children) == Ok(RowsSpec(st, rows).value[i])
  {
    var init := rows[..|rows| - 1];
    if i < |init| {
      RowsSpecAt(st, init, i);
      assert init[i] == rows[i];
    }
  }

  lemma {:induction false} RowsSpecPrefixErr(st: ReaderState, rows: seq<Element>, i: nat)
    requires i <= |rows| && RowsSpec(st, rows[..i]).Err?
    ensures RowsSpec(st, rows) == RowsSpec(st, rows[..i])
    decreases |rows| - i
  {
    if i < |rows| {
      assert rows[..|rows| - 1][..i] == rows[..i];
      RowsSpecPrefixErr(st, rows[..|rows| - 1], i);
    } else {
      assert rows[..i] == rows;
    }
  }

  /** `load_data(part)`: the rows, in document order, of the `row` elements
      as the clearing `iterparse` loop hands them over. */
  function LoadDataSpec(st: ReaderState, tree: Element): (r: Result<seq<seq<PyValue>>, Exc>)
    ensures r.Ok? ==> |r.value| == |Filter(EndEvents(tree, RowTag).0, RowTag)|
  {
    RowsSpec(st, Filter(EndEvents(tree, RowTag).0, RowTag))
  }

  /** In a sheet whose rows do not nest, every `row` element is decoded as
      parsed, one tuple per row in document order. */
  lemma LoadDataRows(st: ReaderState, tree: Element)
    requires NotNested(tree, RowTag)
    ensures LoadDataSpec(st, tree) == RowsSpec(st, Outermost(tree, RowTag))
  {
    EndEventsSeesOriginals(tree, RowTag);
  }

  // ----- Shared strings -----

  function SiTexts(sis: seq<Element>): (ts: seq<string>)
    ensures |ts| == |sis| && forall i :: 0 <= i < |sis| ==> ts[i] == SiText(sis[i])
  {
    seq(|sis|, i requires 0 <= i < |sis| => SiText(sis[i]))
  }

  /** The entries `process_sharedstrings(part)` appends. */
  function SharedStringsSpec(tree: Element): (r: seq<string>)
    ensures |r| == |Filter(EndEvents(tree, SiTag).0, SiTag)|
  {
    SiTexts(Filter(EndEvents(tree, SiTag).0, SiTag))
  }

  /** One end event more: an `si` element adds its text, any other nothing. */
  lemma SiTextsStep(events: seq<Element>, i: nat)
    requires i < |events|
    ensures SiTexts(Filter(events[..i + 1], SiTag)) ==
            SiTexts(Filter(events[..i], SiTag)) + (if events[i].tag == SiTag then [SiText(events[i])] else [])
  {
    var pre := Filter(events[..i], SiTag);
    assert events[..i + 1] == events[..i] + [events[i]];
    FilterAppend(events[..i], [events[i]], SiTag);
    if events[i].tag == SiTag {
      assert Filter(events[..i + 1], SiTag) == pre + [events[i]];
      assert SiTexts(pre + [events[i]]) == SiTexts(pre) + [SiText(events[i])];
    } else {
      assert Filter(events[..i + 1], SiTag) == pre + [];
      assert pre + [] == pre;
    }
  }

  /** Entry i is the text of the i-th `si` element when they do not nest. */
  lemma SharedStringsInOrder(tree: Element)
    requires NotNested(tree, SiTag)
    ensures SharedStringsSpec(tree) == SiTexts(Outermost(tree, SiTag))
  {
    EndEventsSeesOriginals(tree, SiTag);
  }

  /** `_get_text_from_si_or_is(elem)`. */
  method GetTextFromSiOrIs(e: Element) returns (text: string)
    ensures text == SiText(e)
  {
    var accum: seq<string> := [];
    var cs := e.children;
    for i := 0 to |cs|
      invariant accum == SiFragments(cs[..i])
    {
      var child := cs[i];
      SiFragmentsSnoc(cs, i);
      if child.tag == TTag {
        var t := CookText(child);
        if t != "" {
          accum := accum + [t];
        }
      } else if child.tag == RTag {
        var runAccum := RunTexts(child.children);
        accum := accum + runAccum;
      }
    }
    assert cs[..|cs|] == cs;
    text := Concat(accum);
  }

  lemma {:induction false} SiFragmentsSnoc(cs: seq<Element>, i: nat)
    requires i < |cs|
    ensures SiFragments(cs[..i + 1]) == SiFragments(cs[..i]) + ChildFragments(cs[i])
  {
    assert cs[..i + 1][..i] == cs[..i];
  }

  /** The inner loop of `_get_text_from_si_or_is`: the non-empty texts of
      the `t` children of one `r` run. */
  method RunTexts(ts: seq<Element>) returns (runAccum: seq<string>)
    ensures runAccum == RunFragments(ts)
  {
    runAccum := [];
    for j := 0 to |ts|
      invariant runAccum == RunFragments(ts[..j])
    {
      assert ts[..j + 1][..j] == ts[..j];
      if ts[j].tag == TTag {
        var t := CookText(ts[j]);
        if t != "" {
          runAccum := runAccum + [t];
        }
      }
    }
    assert ts[..|ts|] == ts;
  }

  // ----- process_zipfile -----

  /** The handlers of `tag2meth`. */
  datatype Handler = CellStyle | CellXfs | Xf | Row

  /** `elem.tag` names the handler `local`: the bare name or the
      SpreadsheetML-namespaced one. */
  predicate TagIs(e: Element, local: string) {
    e.tag == local || e.tag == Ssml + local
  }

  /** `self.tag2meth.get(elem.tag)`. */
  function Tag2Meth(tag: string): Option<Handler> {
    if tag == "cellStyleXfs" || tag == Ssml + "cellStyleXfs" then Some(CellStyle)
    else if tag == "cellXfs" || tag == Ssml + "cellXfs" then Some(CellXfs)
    else if tag == "xf" || tag == Ssml + "xf" then Some(Xf)
    else if tag == "row" || tag == Ssml + "row" then Some(Row)
    else None
  }

  /** A name that does not end with `a` is not `p + a`. */
  lemma NotPrefixed(p: string, a: string, b: string)
    requires |a| <= |b| ==> b[|b| - |a|..] != a
    ensures p + a != b
  {
  }

  /** No bare key ends with another key, so no namespaced key is another
      bare key, whatever the namespace prefix is. */
  lemma NamespacedKeysApart()
    ensures Ssml + "cellStyleXfs" != "cellXfs" && Ssml + "cellStyleXfs" != "xf" && Ssml + "cellStyleXfs" != "row"
    ensures Ssml + "cellXfs" != "cellStyleXfs" && Ssml + "cellXfs" != "xf" && Ssml + "cellXfs" != "row"
    ensures Ssml + "xf" != "cellStyleXfs" && Ssml + "xf" != "cellXfs" && Ssml + "xf" != "row"
    ensures Ssml + "row" != "cellStyleXfs" && Ssml + "row" != "cellXfs" && Ssml + "row" != "xf"
  {
    assert "cellStyleXfs"[5..] != "cellXfs" && "cellStyleXfs"[10..] != "xf" && "cellStyleXfs"[9..] != "row";
    assert "cellXfs"[5..] != "xf" && "cellXfs"[4..] != "row";
    assert "row"[1..] != "xf";
    NotPrefixed(Ssml, "cellStyleXfs", "cellXfs");
    NotPrefixed(Ssml, "cellStyleXfs", "xf");
    NotPrefixed(Ssml, "cellStyleXfs", "row");
    NotPrefixed(Ssml, "cellXfs", "cellStyleXfs");
    NotPrefixed(Ssml, "cellXfs", "xf");
    NotPrefixed(Ssml, "cellXfs", "row");
    NotPrefixed(Ssml, "xf", "cellStyleXfs");
    NotPrefixed(Ssml, "xf", "cellXfs");
    NotPrefixed(Ssml, "xf", "row");
    NotPrefixed(Ssml, "row", "cellStyleXfs");
    NotPrefixed(Ssml, "row", "cellXfs");
    NotPrefixed(Ssml, "row", "xf");
  }

  /** The eight keys are distinct (the four keys also differ in length), so
      each handler has exactly its two tags. */
  lemma Tag2MethInverse(e: Element)
    ensures TagIs(e, "cellStyleXfs") <==> Tag2Meth(e.tag) == Some(CellStyle)
    ensures TagIs(e, "cellXfs") <==> Tag2Meth(e.tag) == Some(CellXfs)
    ensures TagIs(e, "xf") <==> Tag2Meth(e.tag) == Some(Xf)
    ensures TagIs(e, "row") <==> Tag2Meth(e.tag) == Some(Row)
  {
    NamespacedKeysApart();
    assert |Ssml + "xf"| == |Ssml| + 2 && |Ssml + "row"| == |Ssml| + 3;
    assert |Ssml + "cellXfs"| == |Ssml| + 7 && |Ssml + "cellStyleXfs"| == |Ssml| + 12;
  }

  /** One iteration of `process_zipfile`: the selected handler, if any. The
      tuple `do_row` builds is dropped, but its exceptions are not. */
  function Dispatch(st: ReaderState, e: Element): (r: (ReaderState, Option<Exc>))
    requires ValidState(st)
    ensures ValidState(r.0)
    ensures r.0.sharedStrings == st.sharedStrings
  {
    match Tag2Meth(e.tag)
    case None => (st, None)
    case Some(CellStyle) => (st.(xfType := Some(0)), None)
    case Some(CellXfs) => (st.(xfType := Some(1)), None)
    case Some(Xf) => XfStep(st, e)
    case Some(Row) => (st, if RowSpec(st, e.children).Err? then Some(RowSpec(st, e.children).error) else None)
  }

  /** `process_zipfile` over the pre-order elements `es`, stopping at the
      first exception. */
  function ZipfileSpec(st: ReaderState, es: seq<Element>): (r: (ReaderState, Option<Exc>))
    requires ValidState(st)
    ensures ValidState(r.0)
    ensures r.0.sharedStrings == st.sharedStrings
  {
    if es == [] then (st, None)
    else
      var (s1, e1) := ZipfileSpec(st, es[..|es| - 1]);
      if e1.Some? then (s1, e1) else Dispatch(s1, es[|es| - 1])
  }

  lemma {:induction false} ZipfileStep(st: ReaderState, es: seq<Element>, i: nat)
    requires ValidState(st) && i < |es| && ZipfileSpec(st, es[..i]).1.None?
    ensures ZipfileSpec(st, es[..i + 1]) == Dispatch(ZipfileSpec(st, es[..i]).0, es[i])
  {
    var p := es[..i + 1];
    assert p[..|p| - 1] == es[..i] && p[|p| - 1] == es[i];
  }

  lemma {:induction false} ZipfileSnoc(st: ReaderState, es: seq<Element>, e: Element)
    requires ValidState(st)
    ensures ZipfileSpec(st, es + [e]) ==
      (var p := ZipfileSpec(st, es); if p.1.Some? then p else Dispatch(p.0, e))
  {
    assert (es + [e])[..|es|] == es;
  }

  lemma {:induction false} ZipfileSpecPrefixErr(st: ReaderState, es: seq<Element>, i: nat)
    requires ValidState(st) && i <= |es| && ZipfileSpec(st, es[..i]).1.Some?
    ensures ZipfileSpec(st, es) == ZipfileSpec(st, es[..i])
    decreases |es| - i
  {
    if i < |es| {
      assert es[..|es| - 1][..i] == es[..i];
      ZipfileSpecPrefixErr(st, es[..|es| - 1], i);
    } else {
      assert es[..i] == es;
    }
  }

  /** Under `cellXfs`, an `xf` record takes the next index for its cell type. */
  lemma XfRecordStep(st: ReaderState, e: Element)
    requires ValidState(st) && st.xfType == Some(1) && TagIs(e, "xf") && NumFmtId(e).Ok?
    ensures Dispatch(st, e) == (st.(xfCounts := st.xfCounts[1 := st.xfCounts[1] + 1],
      xfIndexToXlType := st.xfIndexToXlType[st.xfCounts[1] := XfCellType(NumFmtId(e).value)]), None)
  {
    Tag2MethInverse(e);
  }

  /** The i-th record's cell type sits at index `c + i`. */
  predicate XfsRecorded(c: int, xfs: seq<Element>, m: map<int, int>)
    requires forall i :: 0 <= i < |xfs| ==> NumFmtId(xfs[i]).Ok?
  {
    forall i :: 0 <= i < |xfs| ==> c + i in m && m[c + i] == XfCellType(NumFmtId(xfs[i]).value)
  }

  /** Entries of `m0` outside `c..c+n` are still in `m`, unchanged. */
  predicate XfsOthersKept(c: int, n: nat, m0: map<int, int>, m: map<int, int>) {
    forall k :: k in m0 && !(c <= k < c + n) ==> k in m && m[k] == m0[k]
  }

  /** `m` has no index but those of `m0` and `c..c+n`. */
  predicate XfsNoExtra(c: int, n: nat, m0: map<int, int>, m: map<int, int>) {
    forall k :: k in m ==> k in m0 || c <= k < c + n
  }

  /** `s1` is `st` after the `xf` records `xfs` under `cellXfs`. */
  predicate CellXfsOutcome(st: ReaderState, xfs: seq<Element>, s1: ReaderState)
    requires ValidState(st)
    requires forall i :: 0 <= i < |xfs| ==> NumFmtId(xfs[i]).Ok?
  {
    var c := st.xfCounts[1];
    s1.xfType == Some(1) && |s1.xfCounts| == 2 && s1.xfCounts[1] == c + |xfs| &&
    XfsRecorded(c, xfs, s1.xfIndexToXlType) &&
    XfsOthersKept(c, |xfs|, st.xfIndexToXlType, s1.xfIndexToXlType) &&
    XfsNoExtra(c, |xfs|, st.xfIndexToXlType, s1.xfIndexToXlType)
  }

  lemma XfsRecordedStep(c: int, xfs: seq<Element>, m: map<int, int>)
    requires |xfs| >= 1 && forall i :: 0 <= i < |xfs| ==> NumFmtId(xfs[i]).Ok?
    requires XfsRecorded(c, xfs[..|xfs| - 1], m)
    ensures XfsRecorded(c, xfs, m[c + |xfs| - 1 := XfCellType(NumFmtId(xfs[|xfs| - 1]).value)])
  {
    var init := xfs[..|xfs| - 1];
    var n := |init|;
    var t := m[c + n := XfCellType(NumFmtId(xfs[n]).value)];
    forall i | 0 <= i < |xfs| ensures c + i in t && t[c + i] == XfCellType(NumFmtId(xfs[i]).value) {
      if i < n {
        assert init[i] == xfs[i];
        assert c + i in m && m[c + i] == XfCellType(NumFmtId(init[i]).value);
      }
    }
  }

  lemma XfsRecordedAt(c: int, xfs: seq<Element>, m: map<int, int>, i: nat)
    requires i < |xfs| && forall i :: 0 <= i < |xfs| ==> NumFmtId(xfs[i]).Ok?
    requires XfsRecorded(c, xfs, m)
    ensures c + i in m && m[c + i] == XfCellType(NumFmtId(xfs[i]).value)
  {
  }

  lemma XfsOthersKeptStep(c: int, n: nat, m0: map<int, int>, m: map<int, int>, v: int)
    requires XfsOthersKept(c, n, m0, m)
    ensures XfsOthersKept(c, n + 1, m0, m[c + n := v])
  {
  }

  lemma XfsNoExtraStep(c: int, n: nat, m0: map<int, int>, m: map<int, int>, v: int)
    requires XfsNoExtra(c, n, m0, m)
    ensures XfsNoExtra(c, n + 1, m0, m[c + n := v])
  {
  }

  /** One more record extends the outcome by one index. */
  lemma CellXfsOutcomeStep(st: ReaderState, xfs: seq<Element>, s0: ReaderState)
    requires ValidState(st) && |xfs| >= 1
    requires forall i :: 0 <= i < |xfs| ==> NumFmtId(xfs[i]).Ok?
    requires CellXfsOutcome(st, xfs[..|xfs| - 1], s0)
    ensures CellXfsOutcome(st, xfs, s0.(xfCounts := s0.xfCounts[1 := s0.xfCounts[1] + 1],
      xfIndexToXlType := s0.xfIndexToXlType[s0.xfCounts[1] := XfCellType(NumFmtId(xfs[|xfs| - 1]).value)]))
  {
    var c := st.xfCounts[1];
    var n := |xfs| - 1;
    var v := XfCellType(NumFmtId(xfs[n]).value);
    var m := s0.xfIndexToXlType;
    assert s0.xfCounts[1] == c + n;
    XfsRecordedStep(c, xfs, m);
    XfsOthersKeptStep(c, n, st.xfIndexToXlType, m, v);
    XfsNoExtraStep(c, n, st.xfIndexToXlType, m, v);
  }

  /** The style table `cellXfs` builds: after `<cellXfs>` and its `xf`
      records, the i-th record's cell type sits at the i-th free index, the
      counter has moved past them all and no other entry changed. */
  lemma {:induction false} CellXfsTable(st: ReaderState, cx: Element, xfs: seq<Element>)
    requires ValidState(st) && TagIs(cx, "cellXfs")
    requires forall i :: 0 <= i < |xfs| ==> TagIs(xfs[i], "xf") && NumFmtId(xfs[i]).Ok?
    ensures ZipfileSpec(st, [cx] + xfs).1.None?
    ensures CellXfsOutcome(st, xfs, ZipfileSpec(st, [cx] + xfs).0)
    decreases |xfs|
  {
    if xfs == [] {
      Tag2MethInverse(cx);
      ZipfileSnoc(st, [], cx);
      assert [cx] + xfs == [] + [cx];
    } else {
      var init := xfs[..|xfs| - 1];
      var last := xfs[|xfs| - 1];
      CellXfsTable(st, cx, init);
      var s0 := ZipfileSpec(st, [cx] + init).0;
      ConsSnoc(cx, xfs);
      ZipfileSnoc(st, [cx] + init, last);
      XfRecordStep(s0, last);
      CellXfsOutcomeStep(st, xfs, s0);
    }
  }

  /** Splitting `[x] + s` at its last element. */
  lemma ConsSnoc<T>(x: T, s: seq<T>)
    requires s != []
    ensures [x] + s == ([x] + s[..|s| - 1]) + [s[|s| - 1]]
  {
    assert s == s[..|s| - 1] + [s[|s| - 1]];
  }

  /** From a fresh counter, the outcome's table is exactly the records'. */
  lemma {:induction false} CellXfsOutcomeExact(st: ReaderState, xfs: seq<Element>, s1: ReaderState)
    requires ValidState(st) && st.xfCounts[1] == 0 && |xfs| >= 1
    requires forall i :: 0 <= i < |xfs| ==> NumFmtId(xfs[i]).Ok?
    requires CellXfsOutcome(st, xfs, s1)
    ensures forall k :: k in s1.xfIndexToXlType <==> 0 <= k < |xfs|
    ensures forall i :: 0 <= i < |xfs| ==> s1.xfIndexToXlType[i] == XfCellType(NumFmtId(xfs[i]).value)
  {
    var t := s1.xfIndexToXlType;
    assert XfsNoExtra(0, |xfs|, st.xfIndexToXlType, t);
    forall k | k in t
      ensures 0 <= k < |xfs|
    {
      assert k in st.xfIndexToXlType || 0 <= k < |xfs|;
    }
    forall k | 0 <= k < |xfs|
      ensures k in t && t[k] == XfCellType(NumFmtId(xfs[k]).value)
    {
      XfsRecordedAt(0, xfs, t, k);
    }
  }

  /** A fresh reader's style table, after `<cellXfs>` with n >= 1 records,
      maps exactly the indices 0..n-1, each to its record's cell type. */
  lemma {:induction false} CellXfsExactTable(st: ReaderState, cx: Element, xfs: seq<Element>)
    requires ValidState(st) && st.xfCounts[1] == 0 && TagIs(cx, "cellXfs") && |xfs| >= 1
    requires forall i :: 0 <= i < |xfs| ==> TagIs(xfs[i], "xf") && NumFmtId(xfs[i]).Ok?
    ensures forall k :: k in ZipfileSpec(st, [cx] + xfs).0.xfIndexToXlType <==> 0 <= k < |xfs|
    ensures forall i :: 0 <= i < |xfs| ==>
      ZipfileSpec(st, [cx] + xfs).0.xfIndexToXlType[i] == XfCellType(NumFmtId(xfs[i]).value)
  {
    CellXfsTable(st, cx, xfs);
    CellXfsOutcomeExact(st, xfs, ZipfileSpec(st, [cx] + xfs).0);
  }

  /** `xf` records under `cellStyleXfs` leave the table and counters alone,
      whatever their `numFmtId`. */
  lemma {:induction false} CellStyleXfsIgnored(st: ReaderState, cs: Element, xfs: seq<Element>)
    requires ValidState(st) && TagIs(cs, "cellStyleXfs")
    requires forall i :: 0 <= i < |xfs| ==> TagIs(xfs[i], "xf")
    ensures ZipfileSpec(st, [cs] + xfs) == (st.(xfType := Some(0)), None)
    decreases |xfs|
  {
    if xfs == [] {
      Tag2MethInverse(cs);
      ZipfileSnoc(st, [], cs);
      assert [cs] + xfs == [] + [cs];
    } else {
      var init := xfs[..|xfs| - 1];
      var last := xfs[|xfs| - 1];
      CellStyleXfsIgnored(st, cs, init);
      assert [cs] + xfs == ([cs] + init) + [last];
      ZipfileSnoc(st, [cs] + init, last);
      XfStyleStep(st.(xfType := Some(0)), last);
    }
  }

  /** Under `cellStyleXfs`, an `xf` record changes nothing. */
  lemma XfStyleStep(st: ReaderState, e: Element)
    requires ValidState(st) && st.xfType == Some(0) && TagIs(e, "xf")
    ensures Dispatch(st, e) == (st, None)
  {
    Tag2MethInverse(e);
  }

  // ----- open_read -----

  const NotAGoodFile: string := "Not a good file"
  const NotAValidSheet: string := "not a valid sheet"
  const Workbook: string := "xl/workbook.xml"
  const Styles: string := "xl/styles.xml"
  const SharedStrings: string := "xl/sharedstrings.xml"

  /** `ET.parse` of a listed part; a part that is not well-formed XML fails. */
  function PartTree(pkg: Package, name: string): (r: Result<Element, Exc>)
    ensures r.Ok? <==> name in pkg.parts
  {
    if name in pkg.parts then Ok(pkg.parts[name]) else Err(ParseError(name))
  }

  /** `process_zipfile` on a part. */
  function ProcessPart(st: ReaderState, pkg: Package, name: string): (r: (ReaderState, Option<Exc>))
    requires ValidState(st)
    ensures ValidState(r.0) && r.0.sharedStrings == st.sharedStrings
  {
    match PartTree(pkg, name)
    case Err(x) => (st, Some(x))
    case Ok(tree) => ZipfileSpec(st, PreOrder(tree))
  }

  /** The workbook, styles and shared-strings steps of `open_read`, which
      fill the reader's tables before a sheet is chosen. */
  function Prepare(st: ReaderState, pkg: Package, cn: Dict<string, string>): (r: (ReaderState, Option<Exc>))
    requires ValidState(st) && Get(cn, Workbook).Some?
    ensures ValidState(r.0)
  {
    var (s1, e1) := ProcessPart(st, pkg, Get(cn, Workbook).value);
    if e1.Some? then (s1, e1) else
    var (s2, e2) := if Get(cn, Styles).Some? then ProcessPart(s1, pkg, Get(cn, Styles).value) else (s1, None);
    if e2.Some? then (s2, e2) else
    if Get(cn, SharedStrings).None? then (s2, None) else
    match PartTree(pkg, Get(cn, SharedStrings).value)
    case Err(x) => (s2, Some(x))
    case Ok(tree) => (s2.(sharedStrings := s2.sharedStrings + SharedStringsSpec(tree)), None)
  }

  lemma KeyIsPresent(cn: Dict<string, string>, k: string)
    requires k in Keys(cn)
    ensures Get(cn, k).Some?
  {
    var j :| 0 <= j < |Keys(cn)| && Keys(cn)[j] == k;
    assert cn[j].0 == k;
  }

  /** The tail of `open_read`: look the sheet number up among the worksheet
      parts and load that part. */
  function ReadSheet(st: ReaderState, pkg: Package, cn: Dict<string, string>, sheet: int): (r: Result<seq<seq<PyValue>>, Exc>)
    ensures Get(SheetTable(Keys(cn)), sheet).None? ==> r == Err(ValueError(NotAValidSheet))
    ensures r.Ok? ==>
      var name := Get(SheetTable(Keys(cn)), sheet);
      name.Some? && MatchesSheet(name.value) && SheetNumber(name.value) == sheet &&
      Get(cn, name.value).Some? && Get(cn, name.value).value in pkg.parts &&
      r == LoadDataSpec(st, pkg.parts[Get(cn, name.value).value])
  {
    var toRead := Get(SheetTable(Keys(cn)), sheet);
    if toRead.None? then Err(ValueError(NotAValidSheet))
    else
      SheetTableSound(Keys(cn), sheet);
      KeyIsPresent(cn, toRead.value);
      match PartTree(pkg, Get(cn, toRead.value).value)
      case Err(x) => Err(x)
      case Ok(tree) => LoadDataSpec(st, tree)
  }

  /** `open_read(sheet)`: the rows of the requested sheet, and the reader's
      fields afterwards. */
  function OpenReadSpec(st: ReaderState, pkg: Package, sheet: int): (r: (ReaderState, Result<seq<seq<PyValue>>, Exc>))
    requires ValidState(st)
    ensures ValidState(r.0)
    // Not a ZIP file, or no workbook: TypeError, and nothing is read.
    ensures !HasZipSignature(pkg.header) || Get(ComponentNames(pkg.names), Workbook).None? ==>
      r == (st, Err(TypeError(NotAGoodFile)))
    // Otherwise the tables are filled first; a failure there is final.
    ensures HasZipSignature(pkg.header) && Get(ComponentNames(pkg.names), Workbook).Some? ==>
      var p := Prepare(st, pkg, ComponentNames(pkg.names));
      r.0 == p.0 && (p.1.Some? ==> r.1 == Err(p.1.value))
    // Then the sheet is chosen among the worksheet parts and loaded.
    ensures r.1.Ok? ==>
      HasZipSignature(pkg.header) && Get(ComponentNames(pkg.names), Workbook).Some? &&
      Prepare(st, pkg, ComponentNames(pkg.names)).1.None? &&
      r.1 == ReadSheet(r.0, pkg, ComponentNames(pkg.names), sheet)
  {
    if !HasZipSignature(pkg.header) then (st, Err(TypeError(NotAGoodFile)))
    else
      var cn := ComponentNames(pkg.names);
      if Get(cn, Workbook).None? then (st, Err(TypeError(NotAGoodFile)))
      else
        var (s1, e1) := Prepare(st, pkg, cn);
        if e1.Some? then (s1, Err(e1.value))
        else (s1, ReadSheet(s1, pkg, cn, sheet))
  }

  /** A sheet number that no listed worksheet name carries is a ValueError
      once the tables are filled. */
  lemma OpenReadUnknownSheet(st: ReaderState, pkg: Package, sheet: int)
    requires ValidState(st) && HasZipSignature(pkg.header)
    requires Get(ComponentNames(pkg.names), Workbook).Some?
    requires Prepare(st, pkg, ComponentNames(pkg.names)).1.None?
    requires forall i :: 0 <= i < |pkg.names| && MatchesSheet(NormalizeName(pkg.names[i])) ==>
      SheetNumber(NormalizeName(pkg.names[i])) != sheet
    ensures OpenReadSpec(st, pkg, sheet).1 == Err(ValueError(NotAValidSheet))
  {
    var cn := ComponentNames(pkg.names);
    var keys := Keys(cn);
    if Get(SheetTable(keys), sheet).Some? {
      SheetTableSound(keys, sheet);
      var name := Get(SheetTable(keys), sheet).value;
      KeyIsPresent(cn, name);
      ComponentNamesLookup(pkg.names, name);
      assert false;
    }
  }

  lemma LoadStep(events: seq<Element>, i: nat)
    requires i < |events|
    ensures events[i].tag == RowTag ==> Filter(events[..i + 1], RowTag) == Filter(events[..i], RowTag) + [events[i]]
    ensures events[i].tag != RowTag ==> Filter(events[..i + 1], RowTag) == Filter(events[..i], RowTag)
  {
    assert events[..i + 1] == events[..i] + [events[i]];
    FilterAppend(events[..i], [events[i]], RowTag);
    assert Filter(events[..i], RowTag) + [] == Filter(events[..i], RowTag);
  }

  lemma RowsSnoc(st: ReaderState, rows: seq<Element>, row: Element)
    ensures RowsSpec(st, rows + [row]) ==
      (match RowsSpec(st, rows)
       case Err(x) => Err(x)
       case Ok(init) =>
         match RowSpec(st, row.children)
         case Err(x) => Err(x)
         case Ok(v) => Ok(init + [v]))
  {
    assert (rows + [row])[..|rows|] == rows;
  }

  /** Once the rows handed over so far fail, the whole sheet fails alike. */
  lemma LoadStops(st: ReaderState, events: seq<Element>, i: nat)
    requires i <= |events| && RowsSpec(st, Filter(events[..i], RowTag)).Err?
    ensures RowsSpec(st, Filter(events, RowTag)) == RowsSpec(st, Filter(events[..i], RowTag))
  {
    var rows := Filter(events[..i], RowTag);
    assert events == events[..i] + events[i..];
    FilterAppend(events[..i], events[i..], RowTag);
    var all := Filter(events, RowTag);
    assert all[..|rows|] == rows;
    RowsSpecPrefixErr(st, all, |rows|);
  }

  // ----- The reader object -----

  class Reader {
    var sharedStrings: seq<string>
    var xfIndexToXlType: map<int, int>
    var xfType: Option<int>
    var xfCounts: seq<int>

    function State(): ReaderState
      reads this
    {
      ReaderState(sharedStrings, xfIndexToXlType, xfType, xfCounts)
    }

    predicate Valid()
      reads this
    {
      ValidState(State())
    }

    /** `__init__`. */
    constructor ()
      ensures State() == InitialState && Valid()
    {
      sharedStrings := [];
      xfIndexToXlType := map[0 := XlCellNumber];
      xfType := None;
      xfCounts := [0, 0];
    }

    /** `do_cellstyle`. */
    method DoCellStyle()
      requires Valid()
      modifies this
      ensures State() == old(State()).(xfType := Some(0)) && Valid()
    {
      xfType := Some(0);
    }

    /** `do_cellxfs`. */
    method DoCellXfs()
      requires Valid()
      modifies this
      ensures State() == old(State()).(xfType := Some(1)) && Valid()
    {
      xfType := Some(1);
    }

    /** `do_xf(elem)`. */
    method DoXf(e: Element) returns (err: Option<Exc>)
      requires Valid()
      modifies this
      ensures (State(), err) == XfStep(old(State()), e) && Valid()
    {
      err := None;
      if xfType != Some(1) {
        return;
      }
      var xfx := xfCounts[1];
      xfCounts := xfCounts[1 := xfx + 1];
      var n := NumFmtId(e);
      if n.Err? {
        err := Some(n.error);
        return;
      }
      xfIndexToXlType := xfIndexToXlType[xfx := XfCellType(n.value)];
    }

    /** `do_row(row_elem)`. */
    method DoRow(row: Element) returns (r: Result<seq<PyValue>, Exc>)
      ensures r == RowSpec(State(), row.children)
    {
      var cells := row.children;
      var values: seq<PyValue> := [];
      for i := 0 to |cells|
        invariant RowSpec(State(), cells[..i]) == Ok(values)
      {
        var cell := cells[i];
        RowSpecStep(State(), cells, i, values);
        var xf := StyleIndex(cell);
        if xf.Err? {
          RowSpecPrefixErr(State(), cells, i + 1);
          return Err(xf.error);
        }
        var cellType := CellType(cell);
        var t := CellText(cell.children, cellType);
        if t.Err? {
          RowSpecPrefixErr(State(), cells, i + 1);
          return Err(t.error);
        }
        var v := GetValue(State(), t.value, cellType, xf.value);
        if v.Err? {
          RowSpecPrefixErr(State(), cells, i + 1);
          return Err(v.error);
        }
        values := values + [v.value];
      }
      assert cells[..|cells|] == cells;
      r := Ok(values);
    }

    /** One iteration of `process_zipfile`: call the handler `tag2meth`
        selects, if any. */
    method Handle(e: Element) returns (err: Option<Exc>)
      requires Valid()
      modifies this
      ensures (State(), err) == Dispatch(old(State()), e) && Valid()
    {
      err := None;
      var h := Tag2Meth(e.tag);
      match h {
        case None =>
        case Some(CellStyle) => DoCellStyle();
        case Some(CellXfs) => DoCellXfs();
        case Some(Xf) => err := DoXf(e);
        case Some(Row) =>
          var r := DoRow(e);
          if r.Err? {
            err := Some(r.error);
          }
      }
    }

    /** `process_zipfile(part)`: the handlers, over `ET.parse(part).iter()`. */
    method ProcessZipfile(tree: Element) returns (err: Option<Exc>)
      requires Valid()
      modifies this
      ensures (State(), err) == ZipfileSpec(old(State()), PreOrder(tree)) && Valid()
    {
      var es := PreOrder(tree);
      ghost var st0 := State();
      err := None;
      for i := 0 to |es|
        invariant Valid()
        invariant ZipfileSpec(st0, es[..i]) == (State(), None) && err.None?
      {
        ZipfileStep(st0, es, i);
        err := Handle(es[i]);
        if err.Some? {
          ZipfileSpecPrefixErr(st0, es, i + 1);
          return;
        }
      }
      assert es[..|es|] == es;
    }

    /** `process_sharedstrings(part)`. */
    method ProcessSharedStrings(tree: Element)
      requires Valid()
      modifies this
      ensures State() == old(State()).(sharedStrings := old(sharedStrings) + SharedStringsSpec(tree)) && Valid()
    {
      var events := EndEvents(tree, SiTag).0;
      for i := 0 to |events|
        invariant sharedStrings == old(sharedStrings) + SiTexts(Filter(events[..i], SiTag))
        invariant xfIndexToXlType == old(xfIndexToXlType) && xfType == old(xfType) && xfCounts == old(xfCounts)
      {
        SiTextsStep(events, i);
        if events[i].tag == SiTag {
          var s := GetTextFromSiOrIs(events[i]);
          sharedStrings := sharedStrings + [s];
        }
      }
      assert events[..|events|] == events;
      ValidStateStrings(old(State()), sharedStrings);
    }

    /** `load_data(part)`. */
    method LoadData(tree: Element) returns (r: Result<seq<seq<PyValue>>, Exc>)
      ensures r == LoadDataSpec(State(), tree)
    {
      var events := EndEvents(tree, RowTag).0;
      var data: seq<seq<PyValue>> := [];
      for i := 0 to |events|
        invariant RowsSpec(State(), Filter(events[..i], RowTag)) == Ok(data)
      {
        LoadStep(events, i);
        if events[i].tag == RowTag {
          var row := DoRow(events[i]);
          RowsSnoc(State(), Filter(events[..i], RowTag), events[i]);
          if row.Err? {
            LoadStops(State(), events, i + 1);
            return Err(row.error);
          }
          data := data + [row.value];
        }
      }
      assert events[..|events|] == events;
      r := Ok(data);
    }

    /** `open_read(sheet)`. */
    method OpenRead(pkg: Package, sheet: int) returns (r: Result<seq<seq<PyValue>>, Exc>)
      requires Valid()
      modifies this
      ensures (State(), r) == OpenReadSpec(old(State()), pkg, sheet) && Valid()
    {
      if !HasZipSignature(pkg.header) {
        return Err(TypeError(NotAGoodFile));
      }
      var cn := ComponentNames(pkg.names);
      if Get(cn, Workbook).None? {
        return Err(TypeError(NotAGoodFile));
      }
      r := Fill(pkg, cn);
      if r.Err? {
        return;
      }
      var sheets := IdentifySheets(cn);
      var toRead := Get(sheets, sheet);
      if toRead.None? {
        return Err(ValueError(NotAValidSheet));
      }
      SheetTableSound(Keys(cn), sheet);
      KeyIsPresent(cn, toRead.value);
      var part := PartTree(pkg, Get(cn, toRead.value).value);
      if part.Err? {
        return Err(part.error);
      }
      r := LoadData(part.value);
    }

    /** The workbook, styles and shared-strings steps of `open_read`; `Ok([])`
        when they all succeed. */
    method Fill(pkg: Package, cn: Dict<string, string>) returns (r: Result<seq<seq<PyValue>>, Exc>)
      requires Valid() && Get(cn, Workbook).Some?
      modifies this
      ensures var p := Prepare(old(State()), pkg, cn);
        State() == p.0 && Valid() && r == (if p.1.Some? then Err(p.1.value) else Ok([]))
    {
      var err: Option<Exc>;
      var wb := PartTree(pkg, Get(cn, Workbook).value);
      if wb.Err? {
        return Err(wb.error);
      }
      err := ProcessZipfile(wb.value);
      if err.Some? {
        return Err(err.value);
      }
      if Get(cn, Styles).Some? {
        var styles := PartTree(pkg, Get(cn, Styles).value);
        if styles.Err? {
          return Err(styles.error);
        }
        err := ProcessZipfile(styles.value);
        if err.Some? {
          return Err(err.value);
        }
      }
      if Get(cn, SharedStrings).Some? {
        var ss := PartTree(pkg, Get(cn, SharedStrings).value);
        if ss.Err? {
          return Err(ss.error);
        }
        ProcessSharedStrings(ss.value);
      }
      r := Ok([]);
    }
  }
}
