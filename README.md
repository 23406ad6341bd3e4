# pyutils core, modelled in Dafny

This project models the deterministic core of a small collection of Python
utilities and proves what those utilities promise about their results. Every
module below is one Dafny module in a file of the same name.

- **xlsheet.py**, a reader for `.xlsx` workbooks (Office Open XML
  SpreadsheetML, ECMA-376 Part 1) that uses no spreadsheet library.
  - `xl_package.dfy` covers the package side: the `PK\x03\x04` signature test, the normalised part names and `identify_sheets`.
  - `xl_tree.dfy` gives a parsed part as an element tree (tag, attributes, text, children). It covers the pre-order walk of `iter()` and the post-order "end" events of `iterparse`, together with the effect of `clear()`.
  - `xl_values.dfy` holds the pure decoders: cell-type codes, error literals, `xsd:boolean`, the `_xHHHH_` escape, text cooking, shared-string text, serial dates (1900 leap-year quirk included) and `_parse_cell`.
  - `py_num.dfy` holds the parts of `int()`, `float()` and `round()` the reader relies on. Floats are exact reals.
  - `xl_reader.dfy` holds `_XLsheetReader`. It is the class `Reader`, with the fields `xf_type`, `xf_counts`, the style table and the shared-string table. Its methods update those fields as the parts are walked, and each is proved against a function on the reader's state.
- **koala.py**, an in-memory table of column names and rows.
  - `koala.dfy` holds the class `Koala`, whose methods update the table in place.
  - Each method is proved equal to a table function. Those functions are in `koala_table.dfy` (drop, add, filter, fill, rename, stable sort), `koala_groupby.dfy` (`group`) and `koala_join.dfy` (the joins and `from_dict_list`).
  - `koala_values.dfy` covers cells, `_listify`, `_flatten` and Python's ordering of cells.
  - `koala_sort.dfy` covers the stable sort.
  - `koala_groups.dfy` covers the `defaultdict(list)` grouping loop.
- **impl_date.py**, calendar arithmetic on `datetime.date`. It is modelled over the proleptic Gregorian calendar of `calendar.dfy`. `None` stands for the OverflowError or ValueError that `datetime` raises.
- **smap.py**, SQLite type inference from strings and values, and the text of the `CREATE TABLE` and `INSERT` statements.
- **spark_merge.py**, the bookkeeping that does not touch Spark: the suffixed column names, join-key normalisation, and the decision tables of the argument check and of `validate`.
- **pytt.py**, `concat_lines`, which writes the lines of a unittest skeleton.
- **mex.py**, `sigma_algebra`, which enumerates the power set of a list, and the filter pipeline of `estimate_models`.

Two shared modules support the rest:

- `wrappers.dfy` turns a Python call that raises into an `Err`.
- `pydict.dfy` models Python's insertion-ordered `dict`.

Where the code and its documentation disagree, the model follows the code:

- A style index absent from the style table raises KeyError. There is no fallback to NUMBER.
- A shared-string index is a Python list index, so negative indices are accepted.
- An error literal outside the table raises KeyError.
- A boolean text outside the accepted words raises ValueError.

## Model

| member | source | states |
|---|---|---|
| ImplDate.PrevDay | impl_date.py:9-10 | `d - ONE_DAY` is the calendar predecessor, one ordinal earlier; it overflows (None) exactly on 0001-01-01 |
| ImplDate.NextDay | impl_date.py:13-14 | `d + ONE_DAY` is the calendar successor, one ordinal later; it overflows exactly on 9999-12-31 |
| ImplDate.NextPrevInverse | impl_date.py:9-14 | `prev_day(next_day(d)) == d` and `next_day(prev_day(d)) == d` wherever the inner call succeeds |
| ImplDate.PrevWeek | impl_date.py:17-18 | seven days earlier, defined exactly when the ordinal exceeds 7 |
| ImplDate.NextWeek | impl_date.py:21-22 | seven days later, defined exactly when that ordinal is representable |
| ImplDate.WeekKeepsWeekday | impl_date.py:17-22 | a week shift keeps the day of the week |
| ImplDate.FirstValidDay | impl_date.py:28-33 | the four `replace(day=day-i)` attempts always succeed on the day clamped to the month's length, so the "unrechable" exception is never raised |
| ImplDate.PrevMonth | impl_date.py:25-33 | January goes to December of the year before with the same day; any other month goes to the month before with the day clamped to that month's length; fails only in January of year 1 |
| ImplDate.NextMonth | impl_date.py:36-44 | the mirror image of `prev_month`; fails only in December 9999 |
| ImplDate.MonthShiftClamps | impl_date.py:25-44 | a month shift never moves the day forward and keeps it when it is at most 28 |
| ImplDate.PrevYear | impl_date.py:47-51 | same month and day a year earlier, except 29 February, which becomes the 28th when the target year is not leap; fails only in year 1 |
| ImplDate.NextYear | impl_date.py:54-58 | the same a year later; fails only in year 9999 |
| ImplDate.Quarter | impl_date.py:61-62 | a quarter between 1 and 4 whose three months contain the date's month |
| ImplDate.Semester | impl_date.py:65-66 | 1 or 2 |
| ImplDate.SemesterOfQuarter | impl_date.py:61-66 | the semester is the quarter halved, rounding up: quarters 1-2 are semester 1 and quarters 3-4 are semester 2 |
| ImplDate.StartOfMonth | impl_date.py:69-70 | day 1 of the same month, `day - 1` ordinals earlier |
| ImplDate.EndOfMonth | impl_date.py:73-79 | the last valid day of the same month: its day is the month's length and the day after it is not valid |
| ImplDate.StartOfYear | impl_date.py:82-83 | as written: `replace(month=12, day=31)`, so the result is exactly 31 December of the same year, always a valid date |
| ImplDate.EndOfYear | impl_date.py:86-87 | as written: `replace(month=1, day=1)`, so the result is exactly 1 January of the same year, always a valid date |
| ImplDate.StartOfYearIsNotTheStart | impl_date.py:82-87 | `end_of_year(d) <= d <= start_of_year(d)`, strictly after `d` unless `d` is 31 December (the names are swapped) |
| ImplDate.FirstDayOfYear | impl_date.py:82-83 | the intended start: a date of the same year on or before every date of that year |
| ImplDate.LastDayOfYear | impl_date.py:86-87 | the intended end: a date of the same year on or after every date of that year |
| ImplDate.StartOfWeek | impl_date.py:90-91 | the Monday on or before `d`, at most six days earlier; it never overflows |
| ImplDate.EndOfWeek | impl_date.py:94-95 | the Sunday on or after `d`, at most six days later; it overflows exactly when that Sunday is past 9999-12-31 |
| ImplDate.WeekSpansSixDays | impl_date.py:90-95 | the end of the week is six days after its start, and both ends share the same Monday |
| Calendar.AddDays | impl_date.py:5-6 | `date + timedelta(days=n)`: defined exactly when the target ordinal is in 1..3652059, and that ordinal is the date's plus `n` |
| Calendar.Replace | impl_date.py:27 | `date.replace(...)`: succeeds exactly when the fields form a valid date, and then gives that date |
| Calendar.WeekdayAfter | impl_date.py:91 | moving `n` days moves `weekday()` by `n` modulo 7 |
| Calendar.ValidIffOrdinalInRange | impl_date.py:5-6 | the representable dates are exactly those with an ordinal in 1..3652059 |
| Calendar.OrdinalInjective | impl_date.py:5-6 | `toordinal` is one-to-one, so ordinal arithmetic identifies dates |
| Calendar.LeapCycle | impl_date.py:36-58 | the Gregorian leap rule: leap years repeat every 400 years, none is outside multiples of 4, and century years are leap only when divisible by 400 |
| Calendar.DaysInMonth | impl_date.py:25-44 | months have 28 to 31 days, and February has 29 exactly in a leap year |
| Calendar.Ordinal | impl_date.py:5-22 | `toordinal()`: 1 January of year 1 is day 1, and a date's ordinal falls within the days of its year |
| Calendar.Weekday | impl_date.py:90-95 | `weekday()` is 0 to 6, and 1 January of year 1 is a Monday (0) |
| Pytt.FuncLines | pytt.py:86-89 | three lines per function name in input order: its `def test_<name>(self):` stub, the indented `pass` and a blank line |
| Pytt.Lines | pytt.py:63-93 | the chained parts are 13 lines, plus three per function, plus one per class and the six stub lines when there is a class |
| Pytt.ConcatLines | pytt.py:94 | the chained parts, each line followed by exactly one newline, nothing added or dropped |
| Pytt.LinesHeader | pytt.py:66-70 | the output opens with the timestamp comment, a blank line, `import unittest`, a blank line and `import <mod>` |
| Pytt.LinesImports | pytt.py:71-74 | then one `from <mod> import <name>` line per class, in order, and none without classes |
| Pytt.LinesClass | pytt.py:75-80 | then the `class Test<Title>(unittest.TestCase):` declaration between blank lines |
| Pytt.LinesStubs | pytt.py:81-85 | with classes, the `setUp` and `tearDown` stubs follow the class declaration |
| Pytt.LinesFuncs | pytt.py:86-90 | then the three-line test stub of every function, in input order and duplicates kept, starting at line 9 (15 plus the class count with classes) |
| Pytt.LinesFooter | pytt.py:91-93 | the last four lines are a blank line, the `__main__` guard, `unittest.main()` and a blank line |
| Pytt.SetUpIffClasses | pytt.py:71-85 | a `setUp` stub appears in the output exactly when the class list is non-empty |
| Pytt.NotSetUp | pytt.py:66-93 | without classes no line of any other part equals the `setUp` line |
| Mex.Combinations | mex.py:17 | every tuple `itertools.combinations` yields has the requested size, strictly increasing positions and positions inside the range |
| Mex.CombinationsCount | mex.py:17 | there are C(n, k) combinations of size k |
| Mex.CombinationsSorted | mex.py:17 | combinations come in strictly increasing lexicographic order, so none repeats |
| Mex.CombinationsComplete | mex.py:17 | every strictly increasing tuple of the right size inside the range is among them |
| Mex.CombinationsTooMany | mex.py:17 | asking for more elements than there are yields nothing |
| Mex.CombinationsAll | mex.py:17 | asking for all of them yields exactly the whole range, once |
| Mex.SigmaAlgebra | mex.py:10-17 | the i-th yielded list is the input's elements at the i-th index tuple |
| Mex.SigmaAlgebraCount | mex.py:10-17 | a list of n elements has 2^n sublists, as the docstring promises |
| Mex.SigmaAlgebraOrder | mex.py:16-17 | sublists come by size, and within one size in lexicographic order of their positions |
| Mex.SigmaIdxDistinct | mex.py:10-17 | no choice of positions is yielded twice |
| Mex.SigmaIdxComplete | mex.py:10-17 | a tuple of positions is yielded exactly when it is strictly increasing and inside the list: all the subsets, as the docstring says |
| Mex.SigmaAlgebraSubsequences | mex.py:10-17 | every yielded list is the input's elements at some increasing choice of positions |
| Mex.SigmaAlgebraEnds | mex.py:16-17 | the first sublist is empty and the last one is the whole list |
| Mex.FilterMembers | mex.py:38 | `filter(p, s)` keeps exactly the members of `s` that satisfy `p` |
| Mex.FittedSets | mex.py:36-38 | the sets handed to `modelf` are sublists produced by `sigma_algebra`, no more of them than it produces |
| Mex.FittedSetsMembers | mex.py:36-38 | a regressor set is fitted exactly when it is a sublist of `xs` that passes `filterxs` (every sublist when there is none) |
| Mex.EstimateModels | mex.py:36-43 | `estimate_models` yields at most one model per fitted set, hence at most one per sublist |
| Mex.SurvivorIdx | mex.py:36-43 | the surviving positions are increasing, and a position is among them exactly when its set passes `filterxs` and its model passes `filtermodels` |
| Mex.EstimateModelsSurvivors | mex.py:36-43 | `estimate_models` yields, in order, exactly the fitted models of the surviving sets |
| Mex.EstimateModelsUnfiltered | mex.py:36-43 | without filters it yields 2^n models, the i-th fitted to the i-th sublist |
| XLPackage.NormalizeName | xlsheet.py:74 | `name.replace('\\', '/').lower()` on ASCII letters: one output character per input character, no backslash and no upper-case ASCII letter left |
| XLPackage.NormalizeIdempotent | xlsheet.py:74 | normalising a normalised name changes nothing |
| XLPackage.ComponentNames | xlsheet.py:74 | the dictionary built from the name pairs has distinct keys |
| XLPackage.ComponentNamesLookup | xlsheet.py:74 | a normalised key is present exactly when some archive name normalises to it, and then it maps to an archive name that normalises to it |
| XLPackage.DigitRunLength | xlsheet.py:38-46 | `\d+` matches a maximal run of digits |
| XLPackage.SheetNumberAfterPrefix | xlsheet.py:37-46 | for a name `RE_SHEET` matches, the first digit run starts right after `xl/worksheets/sheet` and covers at least the digits the pattern matched |
| XLPackage.SheetNameNumber | xlsheet.py:37-46 | a part named `xl/worksheets/sheet<n>.xml` matches `RE_SHEET` and its key is `n` |
| XLPackage.SheetTableSnoc | xlsheet.py:43-46 | one loop step: a worksheet name is stored under its number, any other name is skipped |
| XLPackage.IdentifySheets | xlsheet.py:41-47 | the loop builds exactly the table of worksheet names by number |
| XLPackage.SheetTable | xlsheet.py:41-47 | `identify_sheets` returns a dict: each sheet number appears once |
| XLPackage.SheetTableGetSnoc | xlsheet.py:43-46 | after one more key, a number looks up that key if it is a worksheet with that number, and otherwise what it looked up before |
| XLPackage.SheetTableSound | xlsheet.py:41-47 | every entry maps a number to a component name that matches `RE_SHEET` and whose first digit run is that number |
| XLPackage.SheetTableComplete | xlsheet.py:41-47 | every worksheet name's number is in the table |
| XLPackage.SheetTableLastWins | xlsheet.py:43-46 | when two worksheet names share a number, the later one wins |
| XLTree.Attr | xlsheet.py:147-148 | `elem.get(name)` is present exactly when the attribute is, and then gives its value |
| XLTree.Cleared | xlsheet.py:127-140 | `elem.clear()` keeps the tag and drops the attributes, text and children |
| XLTree.PreOrder | xlsheet.py:102 | `ET.parse(...).iter()` starts at the root |
| XLTree.Filter | xlsheet.py:125-138 | keeping the elements with one tag keeps only elements with that tag and never lengthens the list |
| XLTree.FilterAppend | xlsheet.py:124-140 | filtering distributes over concatenation, so the loop can be read one event at a time |
| XLTree.EndEvents | xlsheet.py:124-137 | `iterparse` yields at least one end event, the last carrying the root's tag, and gives back an element with the root's tag |
| XLTree.EndEventsUntouched | xlsheet.py:124-140 | when no element carries the tag, nothing is cleared and no end event carries the tag |
| XLTree.EndEventsSeesOriginals | xlsheet.py:124-140 | the end events with the tag are exactly the outermost elements with that tag, unaltered by the clearing of the elements before them |
| XLValues.PyInt | xlsheet.py:240 | `int(x)` of a float truncates toward zero, of an int is the int |
| XLValues.PyFloat | xlsheet.py:225 | `float(x)` of a float is itself, of an int the same number |
| XLValues.XsdToBoolean | xlsheet.py:272-279 | 1 exactly for `1`, `true` and `on`; 0 exactly for a missing or empty text and for `0`, `false` and `off`; ValueError for anything else |
| XLValues.EscapeChar | xlsheet.py:204-206 | a `_xHHHH_` escape whose four hex digits give the character's code point |
| XLValues.DecodeEscape | xlsheet.py:206 | `chr(int(hex, 16))`: one character, or the escape as written when the code is a surrogate |
| XLValues.SubEscapes | xlsheet.py:204-208 | replacing the escapes never lengthens the text |
| XLValues.Unescape | xlsheet.py:202-209 | a text without an underscore is returned unchanged |
| XLValues.SubEscapesWithoutUnderscore | xlsheet.py:204-209 | the substitution alone changes nothing in a text without an underscore |
| XLValues.UnescapeIsSubEscapes | xlsheet.py:202-209 | the `"_" in s` shortcut agrees with running the substitution |
| XLValues.Escape | xlsheet.py:202-209 | the writer's side, the partner of `_unescape`: escaping never shortens the text |
| XLValues.UnescapeEscape | xlsheet.py:202-209 | `_unescape` undoes escaping underscores and control characters: every text round-trips |
| XLValues.SubEscapesEscape | xlsheet.py:204-208 | the substitution alone also undoes the escaping |
| XLValues.LeadingSpace | xlsheet.py:217 | the number of leading characters `strip("\t\n \r")` removes: all whitespace, and the next is not |
| XLValues.TrailingSpace | xlsheet.py:217 | the same for the trailing characters |
| XLValues.StripSpec | xlsheet.py:217 | the stripped text neither starts nor ends with whitespace, is empty exactly when the text is all whitespace, and otherwise is the text between the removed ends |
| XLValues.CookText | xlsheet.py:212-218 | an element without text cooks to the empty string |
| XLValues.CookEscaped | xlsheet.py:212-218 | an escaped string cooks back to itself under `xml:space="preserve"`, and without it when the string has no outer whitespace |
| XLValues.EscapeEnds | xlsheet.py:216-217 | an escaped text without outer whitespace is left alone by the strip |
| XLValues.SiFragments | xlsheet.py:255-268 | only non-empty fragments are accumulated (`if t:`) |
| XLValues.ConcatAppend | xlsheet.py:269 | `''.join` of two lists is the concatenation of their joins |
| XLValues.SiTextPlain | xlsheet.py:255-269 | a plain `<si><t xml:space="preserve">` holding an escaped string yields the string back |
| XLValues.SiTextRuns | xlsheet.py:263-269 | rich text made of runs yields the runs' texts concatenated in order |
| XLValues.Epoch | xlsheet.py:246-252 | the epoch is 1899-12-31 below serial 60 and 1899-12-30 from 60 on, both valid dates |
| XLValues.SerialMs | xlsheet.py:248-250 | the serial's milliseconds, rounded to the nearest: within half a millisecond of `x * 86400000` |
| XLValues.XLDate | xlsheet.py:246-252 | the date is defined exactly when the target day is in 1..9999; then the date and time of day lie within half a millisecond of `x` days after the epoch |
| XLValues.XLDateWhole | xlsheet.py:246-252 | a whole serial `n` is midnight of the day `n` days after the epoch |
| XLValues.XLDateLeapQuirk | xlsheet.py:247 | serials 59 and 60 are both 1900-02-28 and 61 is 1900-03-01, because Excel's phantom 29 February 1900 is skipped by the epoch switch |
| XLValues.ParseCell | xlsheet.py:221-243 | error and empty cells become None, empty text None, booleans `bool(x)`, and whole-valued numbers become ints |
| XLValues.ParseCellDate | xlsheet.py:223-230 | a date cell becomes the serial's date and time; an out-of-range serial keeps the number; a date on 1904-01-01 raises TypeError, because `epoch_1904` is always truthy and `datetime.time(...)` is called with numbers |
| PyNum.ParseIntShow | xlsheet.py:147-168 | `int(str(n)) == n` for every integer |
| PyNum.ParseFloatShow | xlsheet.py:165 | `float(str(n)) == n` for every integer |
| PyNum.Trunc | xlsheet.py:240-248 | `int(x)` rounds toward zero |
| PyNum.RoundHalfEven | xlsheet.py:250 | `round(x)` is within a half of `x`, and ties go to the even neighbour |
| XLReader.InitialStateValid | xlsheet.py:54-57 | the initial state (style 0 is NUMBER, both counters 0, no shared strings) is valid |
| XLReader.XfCellType | xlsheet.py:113-120 | `is_date + 2` is DATE exactly for the date formats 14-22 and 45-47, and NUMBER otherwise |
| XLReader.NumFmtId | xlsheet.py:118 | a missing `numFmtId` is 0; an unparsable one raises ValueError |
| XLReader.XfStep | xlsheet.py:113-120 | `do_xf` does nothing outside `cellXfs`; inside, it takes the next index, even if `int(numFmtId)` then fails, and records the format's cell type under it |
| XLReader.DoChild | xlsheet.py:183-199 | a formula child keeps the text; a value child gives its raw text, or its cooked text in a `str` cell; any other child raises |
| XLReader.ChildrenText | xlsheet.py:149-151 | a cell whose children are all formulas has no text, and a cell with text has a value child |
| XLReader.ChildrenTextLastValue | xlsheet.py:150-151 | when a cell has only value and formula children, its text is that of its last value child, or None when it has none |
| XLReader.CellText | xlsheet.py:149-151 | the loop over a cell's children computes the text `ChildrenText` defines |
| XLReader.ChildrenTextPrefixErr | xlsheet.py:150-151 | the first failing child aborts the cell |
| XLReader.GetCell | xlsheet.py:156-160 | without an explicit type, a style index missing from the style table raises KeyError |
| XLReader.PyIndex | xlsheet.py:168 | Python list indexing: valid exactly for `-n <= i < n`, negative indices counting from the end |
| XLReader.GetValue | xlsheet.py:162-181 | number cells go through the style table; number and shared-string cells without text raise; shared strings are looked up (IndexError out of range); text cells give None when empty; booleans follow `_xsd_to_boolean`; known error literals give None and others KeyError; unknown cell types raise |
| XLReader.NumberCell | xlsheet.py:221-243 | a number cell with NUMBER style is an int when whole and a float otherwise; with DATE style it is the serial's date and time, or the number when out of range |
| XLReader.StyleIndex | xlsheet.py:147 | a cell without `s` has style 0 |
| XLReader.CellType | xlsheet.py:148 | a cell without `t` is a number cell |
| XLReader.DecodeCell | xlsheet.py:146-153 | an unreadable style index is the cell's error, raised before the children are read; a decoded cell had a readable style and readable children |
| XLReader.RowSpec | xlsheet.py:143-154 | `do_row` gives one value per cell element |
| XLReader.RowSpecAt | xlsheet.py:146-153 | the i-th value is the decoding of the i-th cell |
| XLReader.RowSpecPrefixErr | xlsheet.py:146-153 | once a prefix of the cells fails, the row fails with that error |
| XLReader.RowSpecFirstError | xlsheet.py:146-153 | a row fails with the error of its first failing cell |
| XLReader.RowSpecPrefixOk | xlsheet.py:146-153 | a row whose cells all decode succeeds |
| XLReader.RowsSpec | xlsheet.py:137-141 | one tuple per row element |
| XLReader.RowsSpecAt | xlsheet.py:137-141 | the i-th tuple is the i-th row's |
| XLReader.RowsSpecPrefixErr | xlsheet.py:137-141 | the first failing row aborts the load |
| XLReader.RowsSnoc | xlsheet.py:137-140 | one row more appends its tuple, or stops at the first error |
| XLReader.LoadStops | xlsheet.py:137-140 | once the rows seen so far fail, later events change nothing |
| XLReader.LoadDataRows | xlsheet.py:129-141 | when rows do not nest, `load_data` decodes exactly the sheet's row elements in document order |
| XLReader.LoadDataSpec | xlsheet.py:129-141 | `load_data` yields one tuple per `row` end event |
| XLReader.SiTexts | xlsheet.py:124-126 | one shared string per `si` element, its text |
| XLReader.SharedStringsSpec | xlsheet.py:122-127 | `process_sharedstrings` appends one string per `si` end event |
| XLReader.SiTextsStep | xlsheet.py:124-127 | one end event more adds the text of an `si` element and nothing for any other |
| XLReader.SharedStringsInOrder | xlsheet.py:122-127 | when `si` elements do not nest, the shared strings are their texts in document order |
| XLReader.GetTextFromSiOrIs | xlsheet.py:255-269 | the loop computes the text of the `si` element |
| XLReader.RunTexts | xlsheet.py:264-268 | the inner loop accumulates the non-empty texts of a run's `t` children |
| XLReader.Tag2MethInverse | xlsheet.py:59-66 | a tag dispatches to a handler exactly when it is that handler's name, bare or in the SpreadsheetML namespace |
| XLReader.Dispatch | xlsheet.py:103-105 | dispatching one element keeps the state valid and leaves the shared strings alone |
| XLReader.ZipfileSpec | xlsheet.py:101-105 | processing a part keeps the state valid and leaves the shared strings alone |
| XLReader.ProcessPart | xlsheet.py:101-105 | processing one listed or unlisted part keeps the state valid and leaves the shared strings alone |
| XLReader.ZipfileStep | xlsheet.py:102-105 | one more element dispatches from the state reached so far |
| XLReader.ZipfileSpecPrefixErr | xlsheet.py:102-105 | the first failing handler aborts the part |
| XLReader.XfRecordStep | xlsheet.py:113-120 | inside `cellXfs`, an `xf` takes the next index and records its cell type there |
| XLReader.CellXfsTable | xlsheet.py:110-120 | a `cellXfs` followed by its `xf` records numbers them from the current count, recording each cell type and keeping every other entry |
| XLReader.CellXfsExactTable | xlsheet.py:110-120 | from the initial count, the style table maps exactly the indices 0..n-1, the i-th to the i-th record's cell type |
| XLReader.CellStyleXfsIgnored | xlsheet.py:107-115 | `xf` records under `cellStyleXfs` change nothing but the section flag |
| XLReader.PartTree | xlsheet.py:79-82 | a part can be opened exactly when it is in the archive |
| XLReader.Prepare | xlsheet.py:80-91 | reading the workbook, styles and shared strings keeps the state valid |
| XLReader.ReadSheet | xlsheet.py:92-96 | a sheet number missing from the table raises ValueError; otherwise the data is the load of that worksheet part |
| XLReader.OpenReadSpec | xlsheet.py:68-96 | no ZIP signature or no workbook raises TypeError with nothing read; the workbook, styles and shared strings are read first and a failure there is final; then the sheet is looked up and loaded |
| XLReader.OpenReadUnknownSheet | xlsheet.py:92-94 | asking for a sheet no worksheet name has raises ValueError |
| XLReader.Reader.constructor | xlsheet.py:52-66 | the reader starts in the initial state |
| XLReader.Reader.DoCellStyle | xlsheet.py:107-108 | sets the section flag to 0 and nothing else |
| XLReader.Reader.DoCellXfs | xlsheet.py:110-111 | sets the section flag to 1 and nothing else |
| XLReader.Reader.DoXf | xlsheet.py:113-120 | updates the state as `XfStep` says |
| XLReader.Reader.DoRow | xlsheet.py:143-154 | the loop over cells and their children computes `RowSpec` |
| XLReader.Reader.Handle | xlsheet.py:103-105 | one dispatch |
| XLReader.Reader.ProcessZipfile | xlsheet.py:101-105 | the loop over `iter()` computes `ZipfileSpec` on the pre-order of the part |
| XLReader.Reader.ProcessSharedStrings | xlsheet.py:122-127 | appends the part's shared strings and changes nothing else |
| XLReader.Reader.LoadData | xlsheet.py:129-141 | the loop over end events computes `LoadDataSpec` |
| XLReader.Reader.Fill | xlsheet.py:79-91 | reads the workbook, styles and shared strings parts into the state as `Prepare` says |
| XLReader.Reader.OpenRead | xlsheet.py:77-96 | the new state and the result are those of `OpenReadSpec` |
| KoalaValues.Listify | koala.py:25-28 | a single name becomes a one-element list; a list is returned as it is |
| KoalaValues.Flattened | koala.py:31-38 | the leaves of nested lists and tuples, in order: the result holds no tuple |
| KoalaValues.FlattenedFlat | koala.py:31-38 | a list without tuples flattens to itself |
| KoalaValues.FlattenedAppend | koala.py:33-37 | flattening distributes over concatenation |
| KoalaValues.Flatten | koala.py:31-38 | the loop with its recursive `extend` computes `Flattened` |
| KoalaValues.Zip | koala.py:119 | `zip(cols, row)` pairs the i-th name with the i-th cell and stops at the shorter list |
| KoalaValues.RowAsDict | koala.py:118-119 | `dict(zip(...))` has distinct keys |
| KoalaValues.RowAsDictLookup | koala.py:118-119 | in a full row, a column name that occurs once maps to its cell |
| KoalaValues.RowAsDictTruncates | koala.py:119 | names beyond the row's length are ignored |
| KoalaValues.StrLeTotal | koala.py:216 | string comparison is total and antisymmetric |
| KoalaValues.StrLeTrans | koala.py:216 | string comparison is transitive |
| KoalaValues.ValueLeTotal | koala.py:216 | cell comparison is total and antisymmetric |
| KoalaValues.ValueLeTrans | koala.py:216 | cell comparison is transitive |
| KoalaValues.SeqLeTotal | koala.py:214-216 | list comparison (the sort key) is total and antisymmetric |
| KoalaValues.SeqLeTrans | koala.py:214-216 | list comparison is transitive |
| KoalaSort.Key | koala.py:214-215 | `_sort_fn(x)` is the row's cells at the key positions, in order |
| KoalaSort.BeforeTotal | koala.py:216 | any two distinct rows are ordered one way or the other (by key, then by original position) |
| KoalaSort.BeforeAsymmetric | koala.py:216 | never both ways |
| KoalaSort.BeforeTransitive | koala.py:216 | the order is transitive |
| KoalaSort.Insert | koala.py:216 | inserting a position adds exactly that position |
| KoalaSort.InsertOrdered | koala.py:216 | insertion keeps the positions ordered |
| KoalaSort.SortOrder | koala.py:216 | the sort's order is a permutation of the row positions |
| KoalaSort.SortOrderSorted | koala.py:216 | that permutation is ordered |
| KoalaSort.Apply | koala.py:216 | rearranging rows by an order puts the order's i-th row at i |
| KoalaSort.SortRows | koala.py:216 | sorting keeps the number of rows and yields only rows of the original list; `SortRowsSpec` states the whole permutation |
| KoalaSort.SortRowsSpec | koala.py:211-217 | `list.sort(key, reverse)` permutes the rows so that keys ascend (descend with `reverse`), and rows with equal keys keep their original order, as Python's sort is stable for both directions |
| KoalaGroups.AppendTo | koala.py:165-166 | `d[k].append(v)` on a `defaultdict(list)`: the key's list (empty when new) gains `v`, all other keys are unchanged |
| KoalaGroups.Select | koala.py:166 | the values recorded under a key, in order: empty exactly when the key never occurs |
| KoalaGroups.FirstSeen | koala.py:166-180 | the distinct keys in order of first occurrence |
| KoalaGroups.GroupedGet | koala.py:160-166 | the `defaultdict(list)` built by appending row by row maps each occurring key to its values in input order, and nothing else |
| KoalaGroups.GroupedKeys | koala.py:160-180 | its keys come in order of first occurrence |
| KoalaGroups.GroupedAt | koala.py:180 | its i-th entry is the i-th first-seen key with that key's values |
| KoalaGroups.ApplyItemsFresh | koala.py:180-181 | the first aggregation over a fresh `defaultdict(list)` gives each key a one-element list |
| KoalaGroups.ApplyItemsAligned | koala.py:180-181 | a later aggregation over the same keys appends to each key's list, in place |
| KoalaGroups.ApplyGroupedFresh | koala.py:172-181 | the first aggregation of a grouped column gives each first-seen key its aggregate |
| KoalaGroups.ApplyGroupedAligned | koala.py:172-181 | each further aggregation appends its aggregate to the key's row |
| KoalaGroupBy.Lookups | koala.py:155 | `tuple(row[b] for b in by)` succeeds exactly when every name is in the row, giving the cells in order; otherwise KeyError for a missing one |
| KoalaGroupBy.GroupKey | koala.py:152-155 | a single name gives its cell, a list gives the tuple of cells; a missing name raises KeyError |
| KoalaGroupBy.GroupOf | koala.py:164-165 | a missing group is a fresh `defaultdict(list)` |
| KoalaGroupBy.RowIntoGroups | koala.py:162-166 | adding one row keeps each group's keys distinct; it fails only with the KeyError of an aggregated column the row lacks |
| KoalaGroupBy.RowIntoGroupsOther | koala.py:162-166 | a row leaves the groups of other result names alone |
| KoalaGroupBy.RowIntoGroupsName | koala.py:162-166 | a row appends the aggregated column's cell to its key in each aggregation's group |
| KoalaGroupBy.RowIntoGroupsSnoc | koala.py:162-166 | one aggregation more is one more append |
| KoalaGroupBy.GroupsSpec | koala.py:157-167 | `_groupby` yields a dict of groups with distinct result names, or a KeyError |
| KoalaGroupBy.GroupsSpecGet | koala.py:157-167 | each result name's group maps the first-seen keys to the aggregated column's cells of the rows with that key, in order |
| KoalaGroupBy.GroupsSpecSnoc | koala.py:160-166 | one row more is one more `RowIntoGroups` |
| KoalaGroupBy.GroupedRowsSnoc | koala.py:160-166 | grouping one row more appends its cell to its key |
| KoalaGroupBy.AggRows | koala.py:170-181 | the `rows` dict of `_agg` has distinct keys; its only failure is the KeyError of a result name that has no group |
| KoalaGroupBy.AggCols | koala.py:171-178 | no columns without aggregations, otherwise the key columns and one column per aggregation |
| KoalaGroupBy.AggValuesAt | koala.py:179-181 | the j-th aggregate of a key is the j-th function applied to that key's cells of the j-th column |
| KoalaGroupBy.AggRowsEntries | koala.py:170-181 | `_agg` builds one entry per first-seen key holding its aggregates in order |
| KoalaGroupBy.AggRowsMissing | koala.py:179 | a result name without a group raises KeyError |
| KoalaGroupBy.GroupSpec | koala.py:189-209 | `group` names its columns by the key columns followed by the result names |
| KoalaGroupBy.GroupRows | koala.py:157-209 | on a non-empty table with at least one aggregation, distinct result names, and every key and aggregated column present in each row, `group` succeeds and yields one row per distinct key in order of first occurrence: the flattened key followed by each aggregate of that key's cells |
| KoalaGroupBy.GroupTupleKeyWidens | koala.py:205-208 | with a tuple key read from a column holding a tuple, the flattened key is two cells next to one aggregate under two column names: `group` can leave rows longer than the columns |
| KoalaGroupBy.GroupSingleRow | koala.py:156-208 | a one-row table grouped by its key column with `first` of the other column gives the columns `[key name, result name]` and the one row `[key, value]`, flattened |
| KoalaGroupBy.GroupNoRows | koala.py:164-179 | grouping an empty table raises KeyError on the first result name, as `_groupby` never creates it |
| KoalaGroupBy.GroupNoAggs | koala.py:170-187 | without aggregations the table is left with no columns and no rows |
| KoalaGroupBy.AddRow | koala.py:162-166 | the inner loop of `_groupby` computes `RowIntoGroups` |
| KoalaGroupBy.GroupBy | koala.py:157-167 | the loop of `_groupby` computes `GroupsSpec` |
| KoalaGroupBy.GroupsPrefixErr | koala.py:160-166 | the first row that raises aborts the grouping |
| KoalaGroupBy.RowIntoGroupsPrefixErr | koala.py:162-166 | the first aggregation that raises aborts the row |
| KoalaGroupBy.ApplyGroup | koala.py:180-181 | the loop over one group's items computes `ApplyItems` |
| KoalaGroupBy.Aggregate | koala.py:170-187 | `_agg` fails exactly when `AggRows` does; otherwise its columns are the key and result names and its rows are each key followed by its aggregates |
| KoalaGroupBy.AggLoop | koala.py:173-181 | the loop over aggregations computes `AggCols` and `AggRows` |
| KoalaGroupBy.AggColsStep | koala.py:176-178 | the first aggregation also adds the key columns |
| KoalaGroupBy.AggRowsStep | koala.py:179-181 | one aggregation more applies its function to its group, or raises KeyError when the group is missing |
| KoalaGroupBy.RowLists | koala.py:182-186 | each entry becomes the key followed by its values |
| KoalaGroupBy.AggRowsPrefixErr | koala.py:173-181 | the first missing group aborts `_agg` |
| KoalaTable.ColIndex | koala.py:85-89 | `_col_index(c)` is the first position holding `c`, and raises ValueError `column c not found` exactly when `c` is not a column |
| KoalaTable.ColIndices | koala.py:227-243 | the positions of several names in order, or the error of the first missing one |
| KoalaTable.ColIndexAppend | koala.py:137-149 | appending columns does not move an existing column's first position |
| KoalaTable.FirstOut | koala.py:235-246 | the first of the positions a row lacks: every earlier position is in the row and that one is not |
| KoalaTable.FirstShortRow | koala.py:215-246 | the first row lacking one of the positions: every earlier row has them all, and it is the whole table exactly when every row has them |
| KoalaTable.ShortRowAt | koala.py:114-134 | the first row without a cell at the position, and the whole table exactly when every row has one |
| KoalaTable.GetColumn | koala.py:114-116 | `get(col)` is the column's cell of every row, in order; it raises ValueError exactly when the column is missing and IndexError exactly when some row is too short for it |
| KoalaTable.Dicts | koala.py:121-122 | `as_dicts` gives each row's dict, in order |
| KoalaTable.RowAsDictHas | koala.py:118-119 | a full row's dict has exactly the table's column names |
| KoalaTable.DeleteAt | koala.py:132-134 | `del xs[p]` removes exactly the p-th element |
| KoalaTable.DeleteColumn | koala.py:133-134 | the rows before the first row too short for position p lose their p-th cell; that row and the later ones are unchanged |
| KoalaTable.DropColumn | koala.py:129-135 | `column_drop` raises ValueError exactly when the column is missing and IndexError exactly when some row is too short for it; otherwise every row loses one cell, and a rectangular table stays rectangular |
| KoalaTable.DropColumnState | koala.py:129-135 | what `column_drop` leaves, raising or not: the result of a successful call; nothing changed for a missing name; otherwise the name gone and the rows before the first short row without the cell, the rest untouched |
| KoalaTable.DeleteAtNames | koala.py:131-132 | with distinct names, the dropped name is gone, the others stay, and their positions shift down past it |
| KoalaTable.DropColumnKeeps | koala.py:133-134 | every other cell moves with its column |
| KoalaTable.DropColumnOthers | koala.py:129-135 | after dropping a column, it is gone and every other column reads as before |
| KoalaTable.AppendCells | koala.py:145-146 | each row gains `f` of its dict |
| KoalaTable.AddedCols | koala.py:143-148 | a new name is appended; an existing name moves to the end |
| KoalaTable.AddColumn | koala.py:137-149 | with a computer `f` that does not raise, `column_add` fails only when replacing a column and some row is shorter than that column's position, and then with IndexError; on success the names are `AddedCols` and the row count is kept |
| KoalaTable.AddColumnState | koala.py:137-149 | what `column_add` leaves, raising or not: the names are always `AddedCols`, the row count is kept, and a successful call's table is it |
| KoalaTable.AddColumnRow | koala.py:143-148 | on a rectangular table `column_add` succeeds, and each row gains its computed cell at the end, losing the old cell of a replaced column |
| KoalaTable.AddColumnRowGrown | koala.py:144-146 | `f` sees the dict built with the grown column list, which is the same dict since the row is one cell short |
| KoalaTable.AddColumnSpec | koala.py:137-149 | on a rectangular table `column_add` succeeds, keeps the table rectangular, adds a column only for a new name, puts the name last, and fills it with `f` of each row's original dict |
| KoalaTable.AddColumnLosesValue | koala.py:145-148 | a row that ends just before the replaced column keeps exactly its old cells: `del row[p]` deletes the value just appended |
| KoalaTable.KeepRows | koala.py:124-127 | filtering never adds rows |
| KoalaTable.KeepRowsSound | koala.py:124-127 | every kept row is a row of the table that passes the test |
| KoalaTable.KeepRowsComplete | koala.py:124-127 | every row that passes is kept |
| KoalaTable.KeepRowsSnoc | koala.py:124-127 | filtering one row more appends it when it passes |
| KoalaTable.KeepRowsAppend | koala.py:124-127 | filtering distributes over concatenation, so the order of the rows is kept |
| KoalaTable.AllNonNull | koala.py:234-235 | the `all(...)` test is true exactly when every position holds a non-None cell, and raises IndexError exactly when a missing position comes before any None |
| KoalaTable.Where | koala.py:124-127 | `where` keeps the columns |
| KoalaTable.Dropna | koala.py:227-237 | `dropna` without a subset never fails; with one it raises the first missing name's ValueError, and otherwise raises IndexError exactly when some row's test reaches a missing position; the columns are kept |
| KoalaTable.DropnaRectangular | koala.py:227-237 | on a rectangular table `dropna` fails only on a missing subset name |
| KoalaTable.NoneFreeRow | koala.py:230-231 | with distinct names, a row's dict has no None value exactly when the row has no None |
| KoalaTable.NullFreeZip | koala.py:231 | the zipped pairs hold no None exactly when the row holds none |
| KoalaTable.DropnaSpec | koala.py:227-237 | the kept rows are rows of the table with no None in the chosen columns, and every such row is kept |
| KoalaTable.DropnaAll | koala.py:229-236 | without a subset, every column is checked |
| KoalaTable.DropnaSubset | koala.py:232-236 | with a subset, exactly its columns are checked |
| KoalaTable.FillRow | koala.py:245-247 | filling keeps the row's length |
| KoalaTable.FillIndices | koala.py:241-243 | every column without a subset, and the subset's positions otherwise |
| KoalaTable.Fillna | koala.py:239-248 | `fillna` raises a missing subset name's ValueError, and otherwise IndexError exactly when some row lacks a selected position; on success it keeps the columns and the number of rows |
| KoalaTable.FilledRows | koala.py:244-247 | every row filled at the positions |
| KoalaTable.FillRows | koala.py:244-247 | what the fill loop leaves, raising or not: the rows before the first short row filled, that row filled up to its first missing position, the later rows untouched; all rows filled when none is short |
| KoalaTable.FillnaState | koala.py:239-248 | what `fillna` leaves: the result of a successful call, nothing changed for a missing name, `FillRows` otherwise |
| KoalaTable.FillRowsStopped | koala.py:244-247 | rows filled up to a short row, which is filled up to its first missing position, are what the fill loop leaves |
| KoalaTable.FillIndicesSelected | koala.py:241-243 | a position is filled exactly when it is selected |
| KoalaTable.FillRowTwice | koala.py:245-247 | filling a row twice is filling it once |
| KoalaTable.FillnaCells | koala.py:244-247 | on a rectangular table, a cell becomes `value` exactly when it was None and its column is selected; every other cell is unchanged |
| KoalaTable.FillnaIdempotent | koala.py:239-248 | `fillna` twice with the same arguments is `fillna` once |
| KoalaTable.Rename | koala.py:219-222 | `rename` keeps the rows and the number of columns |
| KoalaTable.SuffixPairs | koala.py:285-286 | the renamer maps each non-key column to itself plus the suffix |
| KoalaTable.Suffixed | koala.py:285-286 | each non-key name gains the suffix, key names stay |
| KoalaTable.RenameSuffixed | koala.py:285-286 | renaming with that renamer suffixes exactly the non-key columns |
| KoalaTable.SuffixRenamerAt | koala.py:283-290 | `renamer.get(k, k)` of a column is its suffixed name, or itself for a key |
| KoalaTable.RenameBack | koala.py:219-222 | renaming with a renamer and then with its inverse restores the table |
| KoalaTable.SortColumnsAsWritten | koala.py:213 | as written, `for c in by` walks the characters of a single name, and a list's names |
| KoalaTable.SortAsWritten | koala.py:211-217 | as written: the error of the first missing character name, else IndexError exactly when some row is too short for a key position; on success the columns and row count are kept |
| KoalaTable.SortByStringFails | koala.py:213 | as written, `sort("ab")` raises `column a not found` on a table whose only column is `ab` |
| KoalaTable.Sort | koala.py:211-217 | corrected: a single name is listified; the sort raises a missing key's ValueError, else IndexError exactly when some row is too short for a key column, before any row moves; on a rectangular table it fails exactly when a key is missing; it keeps the columns, the row count and rectangularity |
| KoalaTable.SortKey | koala.py:214-215 | the key of a row is its cells at the key columns, in order |
| KoalaTable.SortSpec | koala.py:211-217 | the sorted rows are a permutation of the rows, ordered by key (descending with `reverse`), equal keys keeping their input order |
| KoalaTable.SortOneName | koala.py:211-217 | the corrected sort treats a single name as a one-element list, on any table |
| KoalaJoin.LookupRows | koala.py:260 | `[[r[k] for k in _cols] for r in ds]` gives one row per dict |
| KoalaJoin.LookupRowsOk | koala.py:260 | it succeeds when every dict has every column |
| KoalaJoin.LookupRowsErr | koala.py:260 | a dict missing a column raises KeyError |
| KoalaJoin.LookupRowsAt | koala.py:260 | the i-th row is the i-th dict's cells in column order |
| KoalaJoin.FromDictList | koala.py:257-261 | `from_dict_list` of an empty list raises StopIteration; otherwise the columns are the first dict's keys and there is one row per dict |
| KoalaJoin.RowAsDictKeys | koala.py:118-119 | with distinct names, a full row's dict has exactly the columns as keys, in order |
| KoalaJoin.RowAsDictLookups | koala.py:118-119 | reading a full row's dict back by column gives the row |
| KoalaJoin.FromDictListDicts | koala.py:257-261 | `from_dict_list(as_dicts())` rebuilds a non-empty table with distinct column names |
| KoalaJoin.LookupRowsDicts | koala.py:257-261 | reading the dicts back gives the rows |
| KoalaJoin.Update | koala.py:298-299 | `row.update(rr)` keeps the keys distinct |
| KoalaJoin.UpdateGet | koala.py:298-299 | after `update`, a key reads the right dict's value when it has one, and the left's otherwise |
| KoalaJoin.Cells | koala.py:300 | `{c: row.get(c) for c in cols}` has one cell per output column |
| KoalaJoin.CellsAt | koala.py:300 | each cell is the merged row's value, or None when it has none |
| KoalaJoin.MergedCell | koala.py:297-300 | each cell of a merged row comes from the right row when it has that column, and from the left row otherwise |
| KoalaJoin.RightIndex | koala.py:288-290 | the index of right rows by key has distinct keys |
| KoalaJoin.KeyTuples | koala.py:283-290 | one key tuple per right row |
| KoalaJoin.RightIndexGrouped | koala.py:288-290 | when every right row has the key columns, the index groups the right rows by key tuple, in order |
| KoalaJoin.RightIndexErr | koala.py:283-290 | a right row without a key column raises KeyError |
| KoalaJoin.Merged | koala.py:297-300 | one merged row per matching right row |
| KoalaJoin.JoinRowsErrors | koala.py:291-300 | the loop over left rows fails only with the KeyError of a missing join-key column, or with the AssertionError of a LEFT join whose default is None |
| KoalaJoin.Join | koala.py:272-301 | `_join` fails only with a KeyError, with StopIteration when no row results, or with the AssertionError of a LEFT join without a default |
| KoalaJoin.JoinInner | koala.py:269-270 | `join_inner` fails only with a KeyError or StopIteration: an unmatched row is skipped before the assert |
| KoalaJoin.JoinLeft | koala.py:263-264 | `join_left` fails only with a KeyError or StopIteration: the `dict()` default never trips the assert |
| KoalaJoin.JoinRight | koala.py:266-267 | `join_right` fails only with a KeyError or StopIteration |
| KoalaJoin.PairRows | koala.py:292-300 | the nested-loop reference: at most one row per right row, each as wide as the output columns |
| KoalaJoin.InnerRows | koala.py:292-300 | the nested-loop reference for all left rows: every row is as wide as the output columns |
| KoalaJoin.DictsConcat | koala.py:300 | building dicts distributes over concatenation |
| KoalaJoin.MergedSelect | koala.py:293-300 | merging a left row with its index entry is merging it with every right row of the same key, in right order |
| KoalaJoin.JoinRowsInner | koala.py:288-300 | the indexed inner join gives the nested-loop rows |
| KoalaJoin.JoinRowsDefault | koala.py:293-295 | a `dict()` default behaves like skipping an unmatched row |
| KoalaJoin.JoinLeftIsInner | koala.py:263-297 | `join_left` gives exactly what `join_inner` gives: an unmatched left row iterates the empty default and contributes nothing |
| KoalaJoin.KeyColsKept | koala.py:285-286 | the key columns are not suffixed, so every renamed row still has them |
| KoalaJoin.JoinInnerSpec | koala.py:269-301 | `join_inner` is one row per (left row, right row) pair with equal key tuples, left-major and in right order within a left row, each merged as `update` does; no pair raises StopIteration |
| KoalaJoin.CrossDicts | koala.py:306-311 | the cross loop yields one merged dict per (left, right) pair |
| KoalaJoin.JoinCross | koala.py:303-312 | `join_cross` raises StopIteration exactly when a side has no rows; otherwise it fails only with a KeyError, and succeeds with one row per pair |
| KoalaJoin.UpdateAll | koala.py:309-311 | `left_row \| right_row` for every right row, in order |
| KoalaJoin.CrossRows | koala.py:308-311 | the cross product is empty exactly when one side is |
| KoalaJoin.Prepend | koala.py:309-311 | a left row followed by each right row |
| KoalaJoin.CrossRowsSize | koala.py:308-311 | \|L\|·\|R\| rows |
| KoalaJoin.CrossRowsAt | koala.py:308-311 | row i·\|R\|+j is left row i followed by right row j |
| KoalaJoin.CrossRowsWidth | koala.py:308-311 | every row is as wide as both tables together |
| KoalaJoin.UpdateFresh | koala.py:310 | merging dicts with disjoint keys is concatenation |
| KoalaJoin.UpdateRowAsDict | koala.py:310 | merging two row dicts with disjoint names is the dict of the joined row |
| KoalaJoin.CrossDictsRows | koala.py:306-311 | the merged dicts are the dicts of the cross-product rows |
| KoalaJoin.LeftRightDiffer | koala.py:304-305 | a `_left` name never equals a `_right` name |
| KoalaJoin.CrossColsDistinct | koala.py:304-305 | after renaming, the columns of both tables are distinct |
| KoalaJoin.JoinCrossSpec | koala.py:303-312 | `join_cross` gives the suffixed columns of both tables and the cross product of the rows, left-major, or StopIteration when one side is empty |
| KoalaJoin.CrossTable | koala.py:312 | `from_dict_list` of the cross dicts gives that table |
| KoalaJoin.JoinCrossDicts | koala.py:303-312 | `join_cross` builds its table from the dicts of the cross-product rows |
| KoalaJoin.BuildIndex | koala.py:288-290 | the loop that fills `right_dict` computes `RightIndex` |
| KoalaJoin.RightIndexPrefixErr | koala.py:289-290 | the first right row that raises aborts the index |
| KoalaJoin.MergeRows | koala.py:297-300 | the inner loop over matching right rows computes `Merged` |
| KoalaJoin.JoinLoop | koala.py:291-300 | the loop over left rows computes `JoinRows` |
| KoalaJoin.JoinRowsStep | koala.py:292-300 | one left row more: a missing key column raises, a match appends its merged rows, and no match skips under the inner or `dict()` default |
| KoalaJoin.JoinRowsPrefixErr | koala.py:292-300 | the first left row that raises aborts the join |
| KoalaJoin.JoinTables | koala.py:272-301 | `_join` computes `Join` |
| KoalaJoin.CrossLoop | koala.py:307-311 | the nested loop computes `CrossDicts` |
| KoalaJoin.CrossJoin | koala.py:303-312 | `join_cross` computes `JoinCross` |
| KoalaFrame.DeleteCells | koala.py:133-134 | the loop of `del row[position]` computes `DeleteColumn`, stopping at the first short row, and reports whether it got through |
| KoalaFrame.AppendComputed | koala.py:145-146 | the loop of `row.append(f(...))` computes `AppendCells` |
| KoalaFrame.FillRowStep | koala.py:245-247 | one more selected position sets the cell when it is None |
| KoalaFrame.FillCells | koala.py:245-247 | the loop over the selected positions of a row computes `FillRow` up to the first missing position, and reports whether there was one |
| KoalaFrame.FillEach | koala.py:244-247 | the `itertools.product` loop computes `FillRows`, and reports whether every row had every position |
| KoalaFrame.FlattenEach | koala.py:208 | `list(map(_flatten, rows))` flattens every row |
| KoalaFrame.Koala.constructor | koala.py:71-74 | the table holds the given columns and rows |
| KoalaFrame.Koala.Clone | koala.py:91-93 | a fresh table with the same columns and rows |
| KoalaFrame.Koala.Shape | koala.py:80-83 | the number of columns and rows |
| KoalaFrame.Koala.Get | koala.py:114-116 | the column's cells, or the ValueError of `_col_index`, or IndexError at a short row, as `GetColumn` says; nothing changes |
| KoalaFrame.Koala.Where | koala.py:124-127 | the new state is `Where` of the old |
| KoalaFrame.Koala.ColumnDrop | koala.py:129-135 | returns the outcome of `DropColumn` of the old state and leaves `DropColumnState`: unchanged on a missing name, half-dropped on a short row |
| KoalaFrame.Koala.ColumnAdd | koala.py:137-149 | returns the outcome of `AddColumn` of the old state and leaves `AddColumnState` |
| KoalaFrame.Koala.Group | koala.py:189-209 | the new state is `GroupSpec` of the old; on error nothing changes |
| KoalaFrame.Koala.Sort | koala.py:211-217 | the new state is the corrected `Sort` of the old; on either error nothing changes |
| KoalaFrame.Koala.Rename | koala.py:219-222 | the new state is `Rename` of the old |
| KoalaFrame.Koala.Dropna | koala.py:227-237 | the new state is `Dropna` of the old; on either error nothing changes |
| KoalaFrame.Koala.Fillna | koala.py:239-248 | returns the outcome of `Fillna` of the old state and leaves `FillnaState`: unchanged on a missing name, partly filled on a short row |
| KoalaFrame.Koala.JoinInner | koala.py:269-270 | a fresh table holding `JoinInner` |
| KoalaFrame.Koala.JoinLeft | koala.py:263-264 | a fresh table holding `JoinLeft` |
| KoalaFrame.Koala.JoinRight | koala.py:266-267 | a fresh table holding `JoinRight`, this table on the right |
| KoalaFrame.Koala.JoinCross | koala.py:303-312 | a fresh table holding `JoinCross` |
| Smap.ThingToSqliteType | smap.py:40-47 | INTEGER exactly for an `int` (a `bool` included, as `isinstance(True, int)` holds), REAL exactly for a `float`, TEXT for everything else |
| Smap.StrToSqliteType | smap.py:50-59 | checked in order: None exactly for the empty string, INTEGER exactly for decimal digits, REAL for other text that `float` accepts, TEXT otherwise |
| Smap.ShownNatAgrees | smap.py:40-59 | a non-negative integer written out is typed as the integer itself is |
| Smap.ShownNegativeIsReal | smap.py:40-59 | a negative integer written out is REAL, since `isdecimal` rejects the sign, while the integer itself is INTEGER |
| Smap.Split | smap.py:165-171 | `split` of a one-character separator gives at least one piece and no piece holds the separator |
| Smap.SplitJoin | smap.py:165-170 | splitting a joined list of separator-free pieces gives the pieces back |
| Smap.JoinCommaSpace | smap.py:165-170 | joining with `", "` is joining the space-prefixed parts with `","` |
| Smap.SplitCommaList | smap.py:165-170 | a `", "`-joined list of comma-free parts splits on `","` into the parts, each after the first with its leading space |
| Smap.ColumnDefs | smap.py:165 | one `name type` definition per column |
| Smap.CreateStatement | smap.py:164-166 | the statement starts with `CREATE TABLE IF NOT EXISTS <table> (` and ends with `)` |
| Smap.CreateStatementColumns | smap.py:164-166 | the statement opens with `CREATE TABLE IF NOT EXISTS <table> (`, closes with `)`, and in between lists one `name type` definition per column, in list order, separated by `", "` |
| Smap.RemoveChar | smap.py:171 | `replace(":", "")` leaves no `:` and adds no character |
| Smap.RemoveCharConcat | smap.py:171 | removal distributes over concatenation |
| Smap.RemoveCharFree | smap.py:171 | a text without `:` is unchanged |
| Smap.RemoveCharJoin | smap.py:170-171 | removing `:` from a joined list is joining the parts with `:` removed |
| Smap.Placeholders | smap.py:170 | one `:name` placeholder per column |
| Smap.InsertStatement | smap.py:169-172 | the statement starts with `INSERT INTO <table> (` and ends with `)` |
| Smap.InsertColumnsMatch | smap.py:169-172 | the placeholders list every column as `:name` in order; the column list has the same length and order, each entry the placeholder with its `:` removed, hence the bare name when the name holds no `:` |
| Smap.BareKeys | smap.py:170-171 | removing `:` from placeholders of `:`-free names gives the names |
| Smap.RecordStep | smap.py:149-151 | one record keeps the type dictionary's keys distinct |
| Smap.RecordStepGet | smap.py:149-151 | a column the record has is typed from its value when it has no type yet; every other entry is unchanged |
| Smap.Scan | smap.py:148-153 | the scan with its early `break` keeps the keys distinct |
| Smap.Typed | smap.py:154-155 | once every column is typed, the list of items pairs each column with its type, in order |
| Smap.FromCsv | smap.py:144-155 | an empty file yields no columns |
| Smap.InferCsvTypes | smap.py:144-155 | the loop with its `break` computes `FromCsv` |
| Smap.FirstType | smap.py:148-153 | the type of a column's first non-empty value, or none when every value is empty or missing |
| Smap.Fold | smap.py:148-151 | the scan without `break` keeps the keys distinct |
| Smap.FoldGet | smap.py:148-151 | without the `break`, a column seen in some row maps to the type of its first non-empty value, and later rows never change it |
| Smap.SeenStep | smap.py:148-151 | a column is seen in one row more when it was seen before or is in that row |
| Smap.FirstTypeStep | smap.py:148-151 | a type, once found, stays; otherwise the next row's value supplies it |
| Smap.FirstTypePrefix | smap.py:148-151 | rows after the first typed value do not change the type |
| Smap.ScanIsFold | smap.py:148-153 | stopping once every column is typed gives the same dictionary as scanning some prefix without stopping |
| Smap.FromCsvFirstTypes | smap.py:144-155 | on success every column gets the type of its first non-empty value; on failure some seen column never got one |
| Smap.FoldKeys | smap.py:148-151 | when every record has the header's columns, the type dictionary has exactly the header's keys |
| Smap.TypedColumn | smap.py:148-153 | when scanning stops early, every header column has a first non-empty value |
| Smap.ScanFromStart | smap.py:148-153 | the scan reads at least one row and stops either at the end or once every column is typed |
| Smap.KeysTyped | smap.py:155 | the list of items has the dictionary's keys |
| Smap.HeaderFold | smap.py:148-153 | an early stop types exactly the header's columns |
| Smap.FromCsvHeaderOk | smap.py:144-155 | on success the columns are the CSV header, in order, each with a first non-empty value |
| Smap.FromCsvHeaderErr | smap.py:152-154 | on failure some header column has no non-empty value |
| Smap.FromCsvHeader | smap.py:144-155 | `from_csv` fails exactly when some header column is empty in every row, and otherwise types exactly the header's columns |
| Smap.FirstComplete | smap.py:88-92 | the position of the first row without a NULL, every earlier row having one; none when every row has one |
| Smap.ZipTypes | smap.py:95-99 | each column paired with the type of its value in that row |
| Smap.InferQueryTypes | smap.py:84-101 | the `while` loop computes `ToSqliteTypes` |
| Smap.ToSqliteTypes | smap.py:84-101 | the type inference of `to_sqlite` fails only with StopIteration (no row without a NULL) or ValueError (`zip(strict=True)` on a row of the wrong length) |
| Smap.ToSqliteKeepsRows | smap.py:84-108 | the rows collected while looking for types, followed by the rest of the iterator, are all the rows, so every row is inserted; the last collected row is the first without a NULL |
| Smap.ToSqliteStops | smap.py:88-89 | `next` raises StopIteration exactly when every row has a NULL |
| Smap.ToSqliteColumnTypes | smap.py:95-99 | with distinct column names, the types are those of the first complete row's values, one per column in order |
| SparkMerge.ColumnNames.NewNames | spark_merge.py:31-33 | each old name with the suffix appended, same length and order |
| SparkMerge.ColumnNames.OldToNew | spark_merge.py:35-37 | `old_to_new` has distinct keys, exactly the old names, each sent to itself with the suffix |
| SparkMerge.ColumnNames.NewToOld | spark_merge.py:39-41 | `new_to_old` has distinct keys, and each of its entries is an entry of `old_to_new` swapped |
| SparkMerge.Pairs | spark_merge.py:37 | `zip` of two equally long lists pairs them position by position |
| SparkMerge.Values | spark_merge.py:41 | the values of a dict, in order |
| SparkMerge.NewNamesDistinct | spark_merge.py:31-33 | distinct old names give distinct new names |
| SparkMerge.NamesDictsArePairs | spark_merge.py:35-41 | with distinct old names, `old_to_new` is exactly the old/new pairs and `new_to_old` the swapped pairs, in order |
| SparkMerge.PairsDistinctKeys | spark_merge.py:37 | pairing distinct names gives distinct keys |
| SparkMerge.PairsUnzip | spark_merge.py:37-41 | the keys and values of the pairs are the two lists |
| SparkMerge.NamesDictsKeys | spark_merge.py:35-41 | `old_to_new` is keyed by the old names and `new_to_old` by the new names, in order |
| SparkMerge.OldToNewAt | spark_merge.py:35-41 | each old name maps to itself plus the suffix, and back |
| SparkMerge.OldToNewInverse | spark_merge.py:35-41 | with distinct old names, `new_to_old` is the inverse of `old_to_new` in both directions |
| SparkMerge.ColumnManager.CommonColsOld | spark_merge.py:48-50 | exactly the names present on both sides |
| SparkMerge.ColumnManager.NewNamesZip | spark_merge.py:52-53 | the new names of both sides paired position by position, stopping at the shorter list |
| SparkMerge.IndicatorColsNames | spark_merge.py:184-187 | `<left key><left suffix>_indicator` paired with `<right key><right suffix>_indicator`, position by position |
| SparkMerge.Listify | spark_merge.py:113-118 | a string becomes a one-element list, a list of strings is kept, and anything else fails an assertion |
| SparkMerge.PyLen | spark_merge.py:166 | `len` is defined for strings (their character count), lists and tuples |
| SparkMerge.ListifyJoinSyntax | spark_merge.py:161-170 | with `on`, both sides get the same listified list; without it, success means equal `len` of the raw arguments and the two listified lists |
| SparkMerge.ListifyLengthMismatch | spark_merge.py:166-169 | as written: `left_on="id"`, `right_on="key"` raise ValueError, while `"ab"` against a two-name list passes with one key on the left and two on the right |
| SparkMerge.ListifyJoinSyntaxChecked | spark_merge.py:161-170 | corrected: the lists are compared after listifying, so success always gives equally many keys on both sides, and equal counts always succeed |
| SparkMerge.KeysWithin | spark_merge.py:67-72 | as written: `frozenset(s).issubset(columns)` of a bare string checks its characters; unhashable items raise TypeError |
| SparkMerge.ItemsWithin | spark_merge.py:67-72 | for a list, the check passes exactly when every item is a string among the columns |
| SparkMerge.KeysWithinChecked | spark_merge.py:67-72 | corrected: a pass means the listified keys are all columns |
| SparkMerge.ValidateOptionsOk | spark_merge.py:79-99 | the option checks pass exactly when `sort` and `indicator` are booleans, `suffixes` is a list or tuple of two distinct strings and `validate` is None or one of the eight accepted names |
| SparkMerge.ValidateOptions | spark_merge.py:79-99 | the option checks raise only TypeError or ValueError; a `validate` outside the accepted values raises TypeError, because the ValueError's message joins `_validators`, whose first element is `None` |
| SparkMerge.ValidateInputsWith | spark_merge.py:56-99 | accepted inputs are two Spark DataFrames whose options pass their checks |
| SparkMerge.ValidateInputs | spark_merge.py:56-99 | `_validate_inputs` raises only TypeError, ValueError or the SparkMergeError of `on` given with `left_on`/`right_on`; an unaccepted `validate` ends in the TypeError that `ValidateOptions` states |
| SparkMerge.ValidateInputsAccepts | spark_merge.py:56-99 | `_validate_inputs` passes exactly when every one of its conditions holds |
| SparkMerge.ValidateInputsErrors | spark_merge.py:57-62 | a non-dataframe raises TypeError; `on` together with `left_on` or `right_on` raises SparkMergeError |
| SparkMerge.ValidateInputsKeyErrors | spark_merge.py:63-78 | only one of `left_on`/`right_on` raises ValueError (or TypeError from an unhashable key); none of the three raises ValueError |
| SparkMerge.ValidateOptionsErrors | spark_merge.py:79-99 | `sort` not a boolean raises TypeError; suffixes of the wrong length or equal suffixes raise ValueError; with every other option valid, a `validate` outside `None` and the eight names raises TypeError (the message's `' '.join` meets the `None` in `_validators`) |
| SparkMerge.NeedsUniqueKnown | spark_merge.py:91-99 | the decision table knows exactly the values the option check accepts |
| SparkMerge.ValidateTable | spark_merge.py:235-281 | a known value passes exactly when the sides it names are unique and otherwise raises SparkMergeError; any other string raises ValueError |
| SparkMerge.Validate | spark_merge.py:235-281 | `_validate` raises only ValueError or SparkMergeError; with both sides unique it passes exactly for the eight accepted names |
| SparkMerge.ValidateOneToOne | spark_merge.py:240-253 | 1:1 passes exactly when both sides are unique |
| SparkMerge.ValidateOneToMany | spark_merge.py:255-259 | 1:m passes exactly when the left side is unique |
| SparkMerge.ValidateManyToOne | spark_merge.py:261-266 | m:1 passes exactly when the right side is unique |
| SparkMerge.ValidateManyToMany | spark_merge.py:267-268 | m:m always passes |
| SparkMerge.MergePlanWith | spark_merge.py:321-335 | `spark_merge` goes ahead only from inputs `_validate_inputs` accepts: its column managers hold the two tables' columns, its join managers the listified keys, and a given `validate` value passed `_validate` |
| SparkMerge.MergePlan | spark_merge.py:321-335 | `spark_merge` as written goes ahead only when `_validate_inputs` accepts, with the key lists `listify_join_syntax` returns |
| SparkMerge.MergePlanCharacterKeys | spark_merge.py:321-332 | as written: `left_on="ab"` on tables with columns `a` and `b` passes input validation, and the merge plan carries the key `ab`, which is no column (the later join expression fails on it) |
| SparkMerge.MergePlanChecked | spark_merge.py:321-335 | with the intended checks, the merge goes ahead only when the name-by-name validation accepts, with the key lists of the length-checked listify |
| SparkMerge.MergePlanCheckedKeys | spark_merge.py:321-335 | corrected: a merge by `left_on`/`right_on` proceeds only with keys that are columns of their tables, equally many on each side |

## Left out

- ZIP extraction and XML parsing are not modelled. A package is given by its leading bytes, its part names and an element tree for each part.
- `read_xlsheet`'s namedtuple construction is not modelled, because the identifier rules live in the standard library.
- `read_all_xlsheets`, `xl2csv` and `sheets()` are not modelled. They are file I/O, or iteration over sheets already modelled one at a time.
- The SpreadsheetML namespace prefix is an unspecified constant string (`XLValues.Ssml`). The model relies only on the tags built from it.
- XLValues.DecodeEscape: an `_xHHHH_` escape that names a UTF-16 surrogate cannot be a Dafny `char`, so it is kept as written, where Python's `chr` yields a lone surrogate.
- `int()` and `float()` are modelled for plain ASCII sign, digits, fraction and exponent. Surrounding whitespace, underscores, `inf`/`nan` and binary floating-point rounding are not modelled: serials are exact reals.
- The `datetime.time` branch of the date conversion is reached only for results on 1904-01-01, and it fails at run time. It is modelled as a TypeError.
- An `inlineStr` cell with an `is` child passes the reader itself as the element, so it is modelled as a TypeError.
- koala.py's `read_csv`, `_parse`, `to_csv`, `show` and the `columns` property are not modelled. They are file or console I/O, float parsing, or a plain accessor.
- `as_dicts` is covered only through `_row_as_dict` (`KoalaJoin.RowAsDictKeys`, `KoalaJoin.RowAsDictLookups`). The generator itself is not modelled.
- The aggregations are given by what they compute on a group's values. MEAN, STD and MEDIAN are floating-point statistics and are not modelled.
- The join keys rows by `hash()` of the key tuple. The model uses equality of key tuples, so hash collisions are not modelled.
- The column order of a join result comes from iterating a `set`, so it is a parameter.
- KoalaGroupBy.Agg: an aggregation is a total function on a group's values. Python's `sum`, `min` and `max` (koala.py:59-61) raise TypeError on a group holding None, or strings mixed with numbers, and `group` then raises. The model has no such outcome.
- KoalaGroupBy.GroupRows: states the result for aggregations that do not raise (see `KoalaGroupBy.Agg`) and for distinct result names. With a repeated result name, koala.py:164-166 appends the cell of each of those aggregations to the one shared group. `GroupsSpec` computes this, but no lemma states the rows that result.
- KoalaTable.Where: the `where` predicate is total. An exception raised inside it, which aborts `where` with the rows unchanged, is not modelled.
- KoalaTable.AddColumn: the computer `f` is total. When it raises (koala.py:145), `_cols` already holds the new name and the earlier rows already hold their new cells. Neither that exception nor that partial state is modelled.
- `KoalaValues.ValueLe` orders values of different kinds, where Python's `sort` raises TypeError. Sorting mixed-kind columns therefore does not raise in the model.
- KoalaFrame.Koala.Sort: sorts by the listified names, as the koala.py:213 finding intends. The code as written iterates the characters of a single name; `KoalaTable.SortAsWritten` models that.
- KoalaFrame.Koala.constructor: the rows and column list are values. In Python the object keeps the caller's lists, and `column_drop`, `column_add` and `fillna` mutate them in place, so other holders of those lists see the changes. The model does not capture this aliasing.
- KoalaValues.Value: `Tup` stands for both a list and a tuple. The TypeError of a list used as a group or join key (lists are unhashable) and the TypeError of sorting a list against a tuple are not modelled.
- Smap.Record: a record maps column names to strings. `csv.DictReader`'s `None` for a short row's missing fields, and its `None` key for a long row's extra fields, are not represented.
- XLPackage.NormalizeName: `str.lower()` is modelled on ASCII letters only. Python also lowers other letters, and some change length (`'İ'` becomes two characters) or map outside their block (the Kelvin sign becomes `k`).
- XLPackage.DigitRunLength: `\d` is modelled as the ASCII digits. Python's `re` also matches other Unicode decimal digits, which `int()` accepts.
- XLPackage.IdentifySheets: recognises sheet numbers written in ASCII digits only, for the same reason.
- Smap.StrToSqliteType: `str.isdecimal` is modelled on ASCII digits only, and `_is_float` is a parameter (Python's float grammar).
- smap.py's `DataSource`, `from_sqlite`, `queries`, `head`, `to_csv`, `sqlite3_table_names` and all sqlite3 connections and execution are not modelled. Rows arrive as sequences.
- spark_merge.py's Spark calls are not modelled: `add_suffix_to_all_cols`, `restore_old_names`, `build_join_expr`, `rename_dfs`, `compute_indicator_cols`, `join_with_indicators` and the `orderBy`.
- spark_merge.py's `_get_key_uniqueness` is given as two booleans.
- spark_merge.py's pandas demo `setup`/`main` is not modelled.
- pytt.py's `parse_args`, `walk_ast`, `parse_lines` (the `ast` module) and `main`'s file writing are not modelled.
- pytt.py's timestamp (`datetime.now`) and the title-cased module name (`str.title`) are inputs.
- mex.py's `data` container and `modelf` are opaque values supplied by the caller.
- mex.py's generator laziness is not modelled: the yielded sequence is a list.
- greppy.py, impl_path.py, find_repo.py, oasis.py, pdlite.py, pdpipable.py, logger_setup.py and profiling.py are not part of this model. They are filesystem, clock, pandas, logging or profiler code.

## Findings

| source | as written | input that shows it | evidently intended | confidence | as-written member | corrected member |
|---|---|---|---|---|---|---|
| impl_date.py:82-87 | `start_of_year` returns 31 December and `end_of_year` returns 1 January | any date other than 31 December: `start_of_year(d)` falls after `d` | `start_of_year` gives 1 January and `end_of_year` gives 31 December | not executed | ImplDate.StartOfYearIsNotTheStart | ImplDate.FirstDayOfYear |
| koala.py:213 | `for c in by` iterates the characters when `by` is a single column name | `sort("ab")` on a table whose only column is `ab` raises `column a not found` | the name is listified first, as the `StrS` type allows | not executed | KoalaTable.SortByStringFails | KoalaTable.SortOneName |
| spark_merge.py:166-169 | the lengths of `left_on` and `right_on` are compared before listifying | `left_on="id"`, `right_on="key"` raise ValueError; `"ab"` against two names passes with one key against two | the listified key lists are compared | not executed | SparkMerge.ListifyLengthMismatch | SparkMerge.ListifyJoinSyntaxChecked |
| spark_merge.py:67-72 | `frozenset(left_on)` of a bare string checks its characters against the columns | `left_on="ab"` on columns `a` and `b` passes input validation and fails later, when the join expression looks up the missing column `ab`; `left_on="id"` is refused on a table that has a column `id` but no columns `i` and `d` | the listified keys are checked against the columns | not executed | SparkMerge.MergePlanCharacterKeys | SparkMerge.MergePlanCheckedKeys |
