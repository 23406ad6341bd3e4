/** smap.py: the SQLite column types a CSV file or a query result is given,
    and the text of the `CREATE TABLE` and `INSERT` statements built from a
    column-to-type list. The connections, cursors and files are not part of
    this model; rows arrive as sequences. */
module Smap {
  import opened Wrappers
  import opened PyDict
  import PyNum

  const REAL: string := "REAL"
  const INTEGER: string := "INTEGER"
  const TEXT: string := "TEXT"

  /** `ColToType`: column names paired with SQLite type names, in order. */
  type ColToType = seq<(string, string)>

  /** A value as a SQLite cursor hands it to Python. `bool` is listed apart
      because Python's `isinstance(True, int)` holds. */
  datatype Thing = NoneV | BoolV(b: bool) | IntV(i: int) | FloatV(x: real) | StrV(s: string) | BytesV(bytes: seq<int>)

  /** The exceptions the modelled code raises. */
  datatype SErr = AssertionError | StopIteration | ValueError

  /** `_thing_to_sqlite_type`: an `int` (a `bool` included) is INTEGER, a
      `float` is REAL, anything else, `None` included, is TEXT. */
  function ThingToSqliteType(t: Thing): (r: string)
    ensures r == INTEGER <==> t.IntV? || t.BoolV?
    ensures r == REAL <==> t.FloatV?
    ensures r == TEXT <==> !(t.IntV? || t.BoolV? || t.FloatV?)
  {
    if t.IntV? || t.BoolV? then INTEGER
    else if t.FloatV? then REAL
    else TEXT
  }

  /** `s.isdecimal()`, restricted to the ASCII digits. */
  predicate IsDecimal(s: string) {
    |s| >= 1 && PyNum.AllDigits(s)
  }

  /** `_str_to_sqlite_type`; `isFloat` stands for `_is_float`, whether
      `float(s)` succeeds. */
  function StrToSqliteType(s: string, isFloat: string -> bool): (r: Option<string>)
    ensures r.None? <==> s == ""
    ensures r == Some(INTEGER) <==> IsDecimal(s)
    ensures r == Some(REAL) <==> s != "" && !IsDecimal(s) && isFloat(s)
    ensures r == Some(TEXT) <==> s != "" && !IsDecimal(s) && !isFloat(s)
  {
    if s == "" then None
    else if IsDecimal(s) then Some(INTEGER)
    else if isFloat(s) then Some(REAL)
    else Some(TEXT)
  }

  /** A natural number written out by `str` gets the type the query path gives
      the number itself. */
  lemma ShownNatAgrees(n: nat, isFloat: string -> bool)
    ensures StrToSqliteType(PyNum.ShowNat(n), isFloat) == Some(ThingToSqliteType(IntV(n)))
  {
  }

  /** A negative integer written out is not decimal: with Python's own float
      grammar it is typed REAL, although the value itself would be INTEGER. */
  lemma ShownNegativeIsReal(n: int)
    requires n < 0
    ensures StrToSqliteType(PyNum.Show(n), s => PyNum.ParseFloat(s).Some?) == Some(REAL)
    ensures ThingToSqliteType(IntV(n)) == INTEGER
  {
    PyNum.ParseFloatShow(n);
    assert PyNum.Show(n)[0] == '-';
  }

  // ---------------------------------------------------------------------
  // Statement text

  /** `sep.join(parts)`. */
  function JoinStr(sep: string, parts: seq<string>): string {
    if parts == [] then ""
    else if |parts| == 1 then parts[0]
    else parts[0] + sep + JoinStr(sep, parts[1..])
  }

  /** `s.split(c)` for a one-character separator. */
  function Split(s: string, c: char): (r: seq<string>)
    ensures |r| >= 1
    ensures forall i :: 0 <= i < |r| ==> c !in r[i]
  {
    if s == [] then [""]
    else
      var rest := Split(s[1..], c);
      if s[0] == c then [""] + rest else [[s[0]] + rest[0]] + rest[1..]
  }

  lemma {:induction false} SplitFree(a: string, c: char)
    requires c !in a
    ensures Split(a, c) == [a]
  {
    if a != [] {
      SplitFree(a[1..], c);
      assert [a[0]] + a[1..] == a;
    }
  }

  lemma {:induction false} SplitAt(a: string, b: string, c: char)
    requires c !in a
    ensures Split(a + [c] + b, c) == [a] + Split(b, c)
  {
    var s := a + [c] + b;
    if a == [] {
      assert s[0] == c && s[1..] == b;
    } else {
      assert s[0] == a[0] && s[1..] == a[1..] + [c] + b;
      SplitAt(a[1..], b, c);
      assert [a[0]] + a[1..] == a;
    }
  }

  /** Splitting a joined list at its one-character separator gives the list
      back when no part holds that character. */
  lemma {:induction false} SplitJoin(parts: seq<string>, c: char)
    requires parts != []
    requires forall i :: 0 <= i < |parts| ==> c !in parts[i]
    ensures Split(JoinStr([c], parts), c) == parts
  {
    if |parts| == 1 {
      SplitFree(parts[0], c);
    } else {
      SplitJoin(parts[1..], c);
      SplitAt(parts[0], JoinStr([c], parts[1..]), c);
      assert [parts[0]] + parts[1..] == parts;
    }
  }

  /** The items after the first, each with the space that ", " leaves in
      front of it. */
  function Spaced(parts: seq<string>): (r: seq<string>)
    requires parts != []
    ensures |r| == |parts| && r[0] == parts[0]
    ensures forall i :: 1 <= i < |parts| ==> r[i] == " " + parts[i]
  {
    [parts[0]] + seq(|parts| - 1, i requires 0 <= i < |parts| - 1 => " " + parts[i + 1])
  }

  lemma {:induction false} JoinCommaSpace(parts: seq<string>)
    requires parts != []
    ensures JoinStr(", ", parts) == JoinStr(",", Spaced(parts))
  {
    if |parts| > 1 {
      JoinCommaSpace(parts[1..]);
      var sp := Spaced(parts[1..]);
      var s := Spaced(parts);
      assert s[1..] == sp[0 := " " + sp[0]];
      JoinSpaceHead(sp);
    }
  }

  lemma JoinSpaceHead(ps: seq<string>)
    requires ps != []
    ensures JoinStr(",", ps[0 := " " + ps[0]]) == " " + JoinStr(",", ps)
  {
    var q := ps[0 := " " + ps[0]];
    if |ps| > 1 {
      assert q[1..] == ps[1..];
    }
  }

  /** A list joined with ", " and split at ',' gives each item back, all but
      the first behind a space. */
  lemma SplitCommaList(parts: seq<string>)
    requires parts != []
    requires forall i :: 0 <= i < |parts| ==> ',' !in parts[i]
    ensures Split(JoinStr(", ", parts), ',') == Spaced(parts)
  {
    JoinCommaSpace(parts);
    var sp := Spaced(parts);
    forall i | 0 <= i < |sp| ensures ',' !in sp[i] {
      if i > 0 {
        assert sp[i] == " " + parts[i];
      }
    }
    SplitJoin(sp, ',');
  }

  const CreatePrefix: string := "CREATE TABLE IF NOT EXISTS "

  /** One `name type` definition per column. */
  function ColumnDefs(d: ColToType): (r: seq<string>)
    ensures |r| == |d|
  {
    seq(|d|, i requires 0 <= i < |d| => d[i].0 + " " + d[i].1)
  }

  /** `_build_create_statement`. */
  function CreateStatement(d: ColToType, table: string): (r: string)
    ensures CreatePrefix + table + " (" <= r && r[|r| - 1] == ')'
  {
    CreatePrefix + table + " (" + JoinStr(", ", ColumnDefs(d)) + ")"
  }

  /** The statement names the table and, between its parentheses, lists one
      `name type` definition per column in list order, separated by ", ". */
  lemma CreateStatementColumns(d: ColToType, table: string)
    requires d != []
    requires forall i :: 0 <= i < |d| ==> ',' !in d[i].0 && ',' !in d[i].1
    ensures var s := CreateStatement(d, table);
            var n := |CreatePrefix| + |table| + 2;
            n < |s| && s[..n] == CreatePrefix + table + " (" && s[|s| - 1] == ')' &&
            Split(s[n..|s| - 1], ',') == Spaced(ColumnDefs(d))
  {
    var defs := ColumnDefs(d);
    forall i | 0 <= i < |defs| ensures ',' !in defs[i] {
      assert defs[i] == d[i].0 + " " + d[i].1;
    }
    SplitCommaList(defs);
    var s := CreateStatement(d, table);
    var n := |CreatePrefix| + |table| + 2;
    var body := JoinStr(", ", defs);
    assert s == (CreatePrefix + table + " (") + body + ")";
    assert s[n..|s| - 1] == body;
  }

  /** `s.replace(c, "")`. */
  function RemoveChar(s: string, c: char): (r: string)
    ensures c !in r
    ensures forall x :: x in r ==> x in s
  {
    if s == [] then ""
    else if s[0] == c then RemoveChar(s[1..], c)
    else [s[0]] + RemoveChar(s[1..], c)
  }

  lemma {:induction false} RemoveCharConcat(a: string, b: string, c: char)
    ensures RemoveChar(a + b, c) == RemoveChar(a, c) + RemoveChar(b, c)
  {
    if a != [] {
      assert (a + b)[0] == a[0] && (a + b)[1..] == a[1..] + b;
      RemoveCharConcat(a[1..], b, c);
    } else {
      assert a + b == b;
    }
  }

  lemma {:induction false} RemoveCharFree(s: string, c: char)
    requires c !in s
    ensures RemoveChar(s, c) == s
  {
    if s != [] {
      RemoveCharFree(s[1..], c);
      assert [s[0]] + s[1..] == s;
    }
  }

  function RemoveEach(parts: seq<string>, c: char): (r: seq<string>)
    ensures |r| == |parts|
    ensures forall i :: 0 <= i < |parts| ==> r[i] == RemoveChar(parts[i], c)
  {
    seq(|parts|, i requires 0 <= i < |parts| => RemoveChar(parts[i], c))
  }

  /** Removing a character the separator lacks can be done part by part. */
  lemma {:induction false} RemoveCharJoin(sep: string, parts: seq<string>, c: char)
    requires c !in sep
    ensures RemoveChar(JoinStr(sep, parts), c) == JoinStr(sep, RemoveEach(parts, c))
  {
    if |parts| > 1 {
      RemoveCharJoin(sep, parts[1..], c);
      RemoveCharConcat(parts[0] + sep, JoinStr(sep, parts[1..]), c);
      RemoveCharConcat(parts[0], sep, c);
      RemoveCharFree(sep, c);
      assert RemoveEach(parts, c)[1..] == RemoveEach(parts[1..], c);
    }
  }

  /** One `:name` placeholder per column. */
  function Placeholders(d: ColToType): (r: seq<string>)
    ensures |r| == |d|
  {
    seq(|d|, i requires 0 <= i < |d| => ":" + d[i].0)
  }

  /** `_build_insert_statement`: the column list is the placeholder list with
      every ':' removed. */
  function InsertStatement(d: ColToType, table: string): (r: string)
    ensures "INSERT INTO " + table + " (" <= r && r[|r| - 1] == ')'
  {
    var values := JoinStr(", ", Placeholders(d));
    "INSERT INTO " + table + " (" + RemoveChar(values, ':') + ") VALUES (" + values + ")"
  }

  /** The placeholder list names every column as `:name`, in order; the column
      list has the same length and order, each entry being the placeholder
      with its ':' characters removed, and so the bare name when the name has
      no ':' of its own. */
  lemma InsertColumnsMatch(d: ColToType)
    requires d != []
    requires forall i :: 0 <= i < |d| ==> ',' !in d[i].0
    ensures var values := JoinStr(", ", Placeholders(d));
            var vs := Split(values, ',');
            var cs := Split(RemoveChar(values, ':'), ',');
            vs == Spaced(Placeholders(d)) && |cs| == |vs| &&
            (forall i :: 0 <= i < |cs| ==> cs[i] == RemoveChar(vs[i], ':')) &&
            ((forall i :: 0 <= i < |d| ==> ':' !in d[i].0) ==> cs == Spaced(Keys(d)))
  {
    var ph := Placeholders(d);
    forall i | 0 <= i < |ph| ensures ',' !in ph[i] {
      assert ph[i] == ":" + d[i].0;
    }
    SplitCommaList(ph);
    RemoveCharJoin(", ", ph, ':');
    var bare := RemoveEach(ph, ':');
    SplitCommaList(bare);
    SpacedRemove(ph);
    if forall i :: 0 <= i < |d| ==> ':' !in d[i].0 {
      BareKeys(d);
    }
  }

  lemma SpacedRemove(ph: seq<string>)
    requires ph != []
    ensures forall i :: 0 <= i < |ph| ==> Spaced(RemoveEach(ph, ':'))[i] == RemoveChar(Spaced(ph)[i], ':')
  {
    forall i | 1 <= i < |ph| ensures Spaced(RemoveEach(ph, ':'))[i] == RemoveChar(Spaced(ph)[i], ':') {
      RemoveCharConcat(" ", ph[i], ':');
    }
  }

  lemma BareKeys(d: ColToType)
    requires forall i :: 0 <= i < |d| ==> ':' !in d[i].0
    ensures RemoveEach(Placeholders(d), ':') == Keys(d)
  {
    var bare := RemoveEach(Placeholders(d), ':');
    forall i | 0 <= i < |d| ensures bare[i] == Keys(d)[i] {
      RemoveCharConcat(":", d[i].0, ':');
      RemoveCharFree(d[i].0, ':');
    }
  }

  // ---------------------------------------------------------------------
  // The type-inference loop of `_FileTypesParser.from_csv`

  /** A CSV record as `csv.DictReader` yields it: column name to text. */
  type Record = Dict<string, string>

  /** The `typedict` being filled; a column whose value is `None` is still
      untyped. */
  type TypeDict = Dict<string, Option<string>>

  /** `typedict.get(k) is None`: the column is absent or still untyped. */
  predicate Untyped(td: TypeDict, k: string) {
    Get(td, k).None? || Get(td, k) == Some(None)
  }

  /** Every column present has a type. */
  predicate AllTyped(td: TypeDict) {
    forall i :: 0 <= i < |td| ==> td[i].1.Some?
  }

  /** The inner loop over the items of one record. */
  function RecordStep(td: TypeDict, rec: Record, isFloat: string -> bool): (r: TypeDict)
    requires DistinctKeys(td)
    ensures DistinctKeys(r)
  {
    if rec == [] then td
    else
      var t := RecordStep(td, rec[..|rec| - 1], isFloat);
      var k := rec[|rec| - 1].0;
      if Untyped(t, k) then Put(t, k, StrToSqliteType(rec[|rec| - 1].1, isFloat)) else t
  }

  /** The outer loop: one record at a time, stopping after the first record
      that leaves every column typed. */
  function Scan(td: TypeDict, rows: seq<Record>, isFloat: string -> bool): (r: TypeDict)
    requires DistinctKeys(td)
    ensures DistinctKeys(r)
    decreases |rows|
  {
    if rows == [] then td
    else
      var t := RecordStep(td, rows[0], isFloat);
      if AllTyped(t) then t else Scan(t, rows[1..], isFloat)
  }

  function Typed(td: TypeDict): (r: ColToType)
    requires AllTyped(td)
    ensures |r| == |td|
    ensures forall i :: 0 <= i < |td| ==> r[i] == (td[i].0, td[i].1.value)
  {
    seq(|td|, i requires 0 <= i < |td| && AllTyped(td) => (td[i].0, td[i].1.value))
  }

  /** `from_csv` up to the list it hands to the constructor: the assertion
      that every column got a type fails otherwise. */
  function FromCsv(rows: seq<Record>, isFloat: string -> bool): (r: Result<ColToType, SErr>)
    ensures rows == [] ==> r == Ok([])
  {
    var td := Scan([], rows, isFloat);
    if AllTyped(td) then Ok(Typed(td)) else Err(AssertionError)
  }

  /** The loop as written, with its `break`. */
  method InferCsvTypes(rows: seq<Record>, isFloat: string -> bool) returns (r: Result<ColToType, SErr>)
    ensures r == FromCsv(rows, isFloat)
  {
    var typedict: TypeDict := [];
    var i := 0;
    while i < |rows|
      invariant 0 <= i <= |rows|
      invariant DistinctKeys(typedict)
      invariant Scan(typedict, rows[i..], isFloat) == Scan([], rows, isFloat)
    {
      var rec := rows[i];
      var before := typedict;
      var j := 0;
      while j < |rec|
        invariant 0 <= j <= |rec|
        invariant DistinctKeys(typedict)
        invariant typedict == RecordStep(before, rec[..j], isFloat)
      {
        var k := rec[j].0;
        if Untyped(typedict, k) {
          typedict := Put(typedict, k, StrToSqliteType(rec[j].1, isFloat));
        }
        assert rec[..j + 1][..j] == rec[..j];
        j := j + 1;
      }
      assert rec[..|rec|] == rec;
      if AllTyped(typedict) {
        assert typedict == Scan([], rows, isFloat);
        break;
      }
      assert rows[i..][1..] == rows[i + 1..];
      i := i + 1;
    }
    if AllTyped(typedict) {
      r := Ok(Typed(typedict));
    } else {
      r := Err(AssertionError);
    }
  }

  /** The record has a non-empty value under `k`. */
  predicate NonEmpty(rec: Record, k: string) {
    Get(rec, k).Some? && Get(rec, k).value != ""
  }

  /** Some record has column `k`. */
  predicate Seen(rows: seq<Record>, k: string) {
    exists i :: 0 <= i < |rows| && Get(rows[i], k).Some?
  }

  /** The type of the first non-empty value of column `k`, if there is one. */
  function FirstType(rows: seq<Record>, k: string, isFloat: string -> bool): (r: Option<string>)
    ensures r.Some? ==> exists i :: 0 <= i < |rows| && NonEmpty(rows[i], k) &&
                          r == StrToSqliteType(Get(rows[i], k).value, isFloat) &&
                          forall j :: 0 <= j < i ==> !NonEmpty(rows[j], k)
    ensures r.None? <==> forall i :: 0 <= i < |rows| ==> !NonEmpty(rows[i], k)
  {
    if rows == [] then None
    else
      var init := rows[..|rows| - 1];
      var p := FirstType(init, k, isFloat);
      assert forall i :: 0 <= i < |init| ==> init[i] == rows[i];
      if p.Some? then p
      else match Get(rows[|rows| - 1], k)
        case Some(v) => StrToSqliteType(v, isFloat)
        case None => None
  }

  /** `from_csv`'s loop run over all of `rows`, without the early exit. */
  function Fold(rows: seq<Record>, isFloat: string -> bool): (r: TypeDict)
    ensures DistinctKeys(r)
  {
    if rows == [] then [] else RecordStep(Fold(rows[..|rows| - 1], isFloat), rows[|rows| - 1], isFloat)
  }

  /** The inner loop sets a column exactly when the record has it and it is
      still untyped; every other column keeps its value. */
  lemma {:induction false} RecordStepGet(td: TypeDict, rec: Record, k: string, isFloat: string -> bool)
    requires DistinctKeys(td) && DistinctKeys(rec)
    ensures Get(RecordStep(td, rec, isFloat), k) ==
            if Get(rec, k).Some? && Untyped(td, k) then Some(StrToSqliteType(Get(rec, k).value, isFloat))
            else Get(td, k)
  {
    if rec != [] {
      var init := rec[..|rec| - 1];
      var last := rec[|rec| - 1];
      assert rec == init + [last];
      RecordStepGet(td, init, k, isFloat);
      GetSnoc(init, last, k);
      if last.0 == k {
        assert Get(init, k).None?;
      }
    }
  }

  /** Folding the records gives every column seen the type of its first
      non-empty value, or `None` while it has none. */
  lemma {:induction false} FoldGet(rows: seq<Record>, k: string, isFloat: string -> bool)
    requires forall i :: 0 <= i < |rows| ==> DistinctKeys(rows[i])
    ensures Get(Fold(rows, isFloat), k) == if Seen(rows, k) then Some(FirstType(rows, k, isFloat)) else None
  {
    if rows != [] {
      var init := rows[..|rows| - 1];
      var last := rows[|rows| - 1];
      assert forall i :: 0 <= i < |init| ==> DistinctKeys(init[i]) by {
        assert forall i :: 0 <= i < |init| ==> init[i] == rows[i];
      }
      FoldGet(init, k, isFloat);
      RecordStepGet(Fold(init, isFloat), last, k, isFloat);
      SeenStep(rows, k);
      FirstTypeStep(rows, k, isFloat);
    }
  }

  lemma {:induction false} SeenStep(rows: seq<Record>, k: string)
    requires rows != []
    ensures Seen(rows, k) <==> Seen(rows[..|rows| - 1], k) || Get(rows[|rows| - 1], k).Some?
  {
    var init := rows[..|rows| - 1];
    assert forall i :: 0 <= i < |init| ==> init[i] == rows[i];
    if Seen(rows, k) && Get(rows[|rows| - 1], k).None? {
      var i :| 0 <= i < |rows| && Get(rows[i], k).Some?;
      assert i < |init|;
    }
  }

  lemma FirstTypeStep(rows: seq<Record>, k: string, isFloat: string -> bool)
    requires rows != []
    ensures var p := FirstType(rows[..|rows| - 1], k, isFloat);
            var last := rows[|rows| - 1];
            FirstType(rows, k, isFloat) ==
            if p.Some? then p
            else if Get(last, k).Some? then StrToSqliteType(Get(last, k).value, isFloat)
            else None
  {
  }

  /** A type found in a prefix of the records is the type of the whole file. */
  lemma {:induction false} FirstTypePrefix(rows: seq<Record>, m: nat, k: string, isFloat: string -> bool)
    requires m <= |rows|
    requires FirstType(rows[..m], k, isFloat).Some?
    ensures FirstType(rows, k, isFloat) == FirstType(rows[..m], k, isFloat)
    decreases |rows| - m
  {
    if m < |rows| {
      var n := |rows| - 1;
      var init := rows[..n];
      assert init[..m] == rows[..m];
      FirstTypePrefix(init, m, k, isFloat);
      assert FirstType(init, k, isFloat).Some?;
      FirstTypeSnoc(rows, k, isFloat);
    } else {
      assert rows[..m] == rows;
    }
  }

  lemma FirstTypeSnoc(rows: seq<Record>, k: string, isFloat: string -> bool)
    requires rows != []
    requires FirstType(rows[..|rows| - 1], k, isFloat).Some?
    ensures FirstType(rows, k, isFloat) == FirstType(rows[..|rows| - 1], k, isFloat)
  {
  }

  /** `Scan` is `Fold` over the records up to the one that stopped it. */
  lemma {:induction false} ScanIsFold(rows: seq<Record>, i: nat, isFloat: string -> bool) returns (m: nat)
    requires i <= |rows|
    ensures i <= m <= |rows| && (i < |rows| ==> i < m)
    ensures Scan(Fold(rows[..i], isFloat), rows[i..], isFloat) == Fold(rows[..m], isFloat)
    ensures m == |rows| || AllTyped(Fold(rows[..m], isFloat))
    decreases |rows| - i
  {
    if i == |rows| {
      m := i;
    } else {
      var t := RecordStep(Fold(rows[..i], isFloat), rows[i], isFloat);
      assert rows[..i + 1][..i] == rows[..i];
      assert t == Fold(rows[..i + 1], isFloat);
      if AllTyped(t) {
        m := i + 1;
      } else {
        assert rows[i..][1..] == rows[i + 1..];
        m := ScanIsFold(rows, i + 1, isFloat);
      }
    }
  }

  /** Every column `from_csv` returns carries the type of the first non-empty
      value in that column, whatever the later records hold; when it fails,
      some column it saw had no non-empty value at all. */
  lemma FromCsvFirstTypes(rows: seq<Record>, isFloat: string -> bool)
    requires forall i :: 0 <= i < |rows| ==> DistinctKeys(rows[i])
    ensures var r := FromCsv(rows, isFloat);
            r.Ok? ==> forall j :: 0 <= j < |r.value| ==> FirstType(rows, r.value[j].0, isFloat) == Some(r.value[j].1)
    ensures FromCsv(rows, isFloat).Err? ==> exists k :: Seen(rows, k) && FirstType(rows, k, isFloat).None?
  {
    var m := ScanIsFold(rows, 0, isFloat);
    assert rows[..0] == [] && rows[0..] == rows;
    var td := Fold(rows[..m], isFloat);
    assert forall i :: 0 <= i < m ==> rows[..m][i] == rows[i];
    var r := FromCsv(rows, isFloat);
    if r.Ok? {
      forall j | 0 <= j < |r.value| ensures FirstType(rows, r.value[j].0, isFloat) == Some(r.value[j].1) {
        var k := td[j].0;
        GetAt(td, j);
        FoldGet(rows[..m], k, isFloat);
        FirstTypePrefix(rows, m, k, isFloat);
      }
    } else {
      assert m == |rows| && rows[..m] == rows;
      var j :| 0 <= j < |td| && td[j].1.None?;
      GetAt(td, j);
      FoldGet(rows, td[j].0, isFloat);
    }
  }

  lemma GetSameKeys<V>(a: Dict<string, V>, b: Dict<string, V>, k: string)
    requires Keys(a) == Keys(b)
    ensures Get(a, k).None? <==> Get(b, k).None?
  {
    assert forall j :: 0 <= j < |a| ==> a[j].0 == Keys(a)[j];
    assert forall j :: 0 <= j < |b| ==> b[j].0 == Keys(b)[j];
  }

  /** The first record lays out the columns in its own order. */
  lemma {:induction false} RecordStepKeysNew(rec: Record, isFloat: string -> bool)
    requires DistinctKeys(rec)
    ensures Keys(RecordStep([], rec, isFloat)) == Keys(rec)
  {
    if rec != [] {
      var init := rec[..|rec| - 1];
      var k := rec[|rec| - 1].0;
      RecordStepKeysNew(init, isFloat);
      var t := RecordStep([], init, isFloat);
      assert forall j :: 0 <= j < |t| ==> t[j].0 == Keys(init)[j] == init[j].0 != k;
      assert Get(t, k).None?;
    }
  }

  /** A record whose columns are all known adds no column. */
  lemma {:induction false} RecordStepKeysSame(td: TypeDict, rec: Record, isFloat: string -> bool)
    requires DistinctKeys(td)
    requires forall i :: 0 <= i < |rec| ==> Get(td, rec[i].0).Some?
    ensures Keys(RecordStep(td, rec, isFloat)) == Keys(td)
  {
    if rec != [] {
      var init := rec[..|rec| - 1];
      var k := rec[|rec| - 1].0;
      RecordStepKeysSame(td, init, isFloat);
      var t := RecordStep(td, init, isFloat);
      GetSameKeys(t, td, k);
    }
  }

  /** With `csv.DictReader`'s records, which all carry the header's columns,
      the type dict has exactly the header's columns in header order. */
  lemma {:induction false} FoldKeys(rows: seq<Record>, header: seq<string>, isFloat: string -> bool)
    requires rows != []
    requires forall i :: 0 <= i < |rows| ==> DistinctKeys(rows[i]) && Keys(rows[i]) == header
    ensures Keys(Fold(rows, isFloat)) == header
  {
    var init := rows[..|rows| - 1];
    var last := rows[|rows| - 1];
    if init == [] {
      RecordStepKeysNew(last, isFloat);
    } else {
      assert forall i :: 0 <= i < |init| ==> init[i] == rows[i];
      FoldKeys(init, header, isFloat);
      var t := Fold(init, isFloat);
      forall i | 0 <= i < |last| ensures Get(t, last[i].0).Some? {
        assert Keys(last)[i] == last[i].0;
        assert Keys(t)[i] == t[i].0;
      }
      RecordStepKeysSame(t, last, isFloat);
    }
  }

  /** Once a prefix of a CSV file leaves every column typed, each header
      column has a non-empty value somewhere. */
  lemma TypedColumn(rows: seq<Record>, header: seq<string>, m: nat, k: string, isFloat: string -> bool)
    requires 1 <= m <= |rows|
    requires forall i :: 0 <= i < |rows| ==> DistinctKeys(rows[i]) && Keys(rows[i]) == header
    requires AllTyped(Fold(rows[..m], isFloat))
    requires k in header
    ensures FirstType(rows, k, isFloat).Some?
  {
    var pre := rows[..m];
    assert forall i :: 0 <= i < m ==> pre[i] == rows[i];
    var td := Fold(pre, isFloat);
    FoldKeys(pre, header, isFloat);
    var j :| 0 <= j < |header| && header[j] == k;
    assert Keys(td)[j] == td[j].0 == k;
    GetAt(td, j);
    assert Get(pre[0], k).Some? by {
      assert Keys(pre[0]) == header;
      assert pre[0][j].0 == k;
    }
    FoldGet(pre, k, isFloat);
    FirstTypePrefix(rows, m, k, isFloat);
  }

  /** `from_csv`'s scan is the fold over the records up to the one that
      stopped it, and it reads at least one record when there is one. */
  lemma ScanFromStart(rows: seq<Record>, isFloat: string -> bool) returns (m: nat)
    ensures m <= |rows| && (rows != [] ==> 1 <= m)
    ensures Scan([], rows, isFloat) == Fold(rows[..m], isFloat)
    ensures m == |rows| || AllTyped(Fold(rows[..m], isFloat))
  {
    m := ScanIsFold(rows, 0, isFloat);
    assert rows[..0] == [] && rows[0..] == rows;
  }

  lemma KeysTyped(td: TypeDict)
    requires AllTyped(td)
    ensures Keys(Typed(td)) == Keys(td)
  {
  }

  lemma HeaderFold(rows: seq<Record>, header: seq<string>, m: nat, isFloat: string -> bool)
    requires 1 <= m <= |rows|
    requires forall i :: 0 <= i < |rows| ==> DistinctKeys(rows[i]) && Keys(rows[i]) == header
    requires AllTyped(Fold(rows[..m], isFloat))
    ensures Keys(Fold(rows[..m], isFloat)) == header
    ensures forall k :: k in header ==> FirstType(rows, k, isFloat).Some?
  {
    var pre := rows[..m];
    assert forall i :: 0 <= i < m ==> pre[i] == rows[i];
    FoldKeys(pre, header, isFloat);
    forall k | k in header ensures FirstType(rows, k, isFloat).Some? {
      TypedColumn(rows, header, m, k, isFloat);
    }
  }

  lemma FromCsvHeaderOk(rows: seq<Record>, header: seq<string>, isFloat: string -> bool)
    requires rows != []
    requires forall i :: 0 <= i < |rows| ==> DistinctKeys(rows[i]) && Keys(rows[i]) == header
    requires FromCsv(rows, isFloat).Ok?
    ensures Keys(FromCsv(rows, isFloat).value) == header
    ensures forall k :: k in header ==> FirstType(rows, k, isFloat).Some?
  {
    var m := ScanFromStart(rows, isFloat);
    HeaderFold(rows, header, m, isFloat);
    KeysTyped(Fold(rows[..m], isFloat));
  }

  lemma FromCsvHeaderErr(rows: seq<Record>, header: seq<string>, isFloat: string -> bool)
    requires forall i :: 0 <= i < |rows| ==> DistinctKeys(rows[i]) && Keys(rows[i]) == header
    requires FromCsv(rows, isFloat).Err?
    ensures exists k :: k in header && FirstType(rows, k, isFloat).None?
  {
    FromCsvFirstTypes(rows, isFloat);
    var k :| Seen(rows, k) && FirstType(rows, k, isFloat).None?;
    var i :| 0 <= i < |rows| && Get(rows[i], k).Some?;
    KeyInHeader(rows[i], header, k);
  }

  /** A key a record holds is one of its header's names. */
  lemma KeyInHeader(r: Record, header: seq<string>, k: string)
    requires Keys(r) == header && Get(r, k).Some?
    ensures k in header
  {
    var j :| 0 <= j < |r| && r[j].0 == k;
    assert Keys(r)[j] == k;
  }

  /** For the records of a CSV file with a header: `from_csv` lists the
      header's columns in order, and it fails exactly when some column has
      no non-empty value anywhere in the file. */
  lemma FromCsvHeader(rows: seq<Record>, header: seq<string>, isFloat: string -> bool)
    requires rows != []
    requires forall i :: 0 <= i < |rows| ==> DistinctKeys(rows[i]) && Keys(rows[i]) == header
    ensures FromCsv(rows, isFloat).Ok? ==> Keys(FromCsv(rows, isFloat).value) == header
    ensures FromCsv(rows, isFloat).Err? <==> exists k :: k in header && FirstType(rows, k, isFloat).None?
  {
    if FromCsv(rows, isFloat).Ok? {
      FromCsvHeaderOk(rows, header, isFloat);
    } else {
      FromCsvHeaderErr(rows, header, isFloat);
    }
  }

  // ---------------------------------------------------------------------
  // The type-inference prefix of `_QueryResult.to_sqlite`

  /** `any(r is None for r in row)`. */
  predicate HasNone(row: seq<Thing>) {
    exists j :: 0 <= j < |row| && row[j].NoneV?
  }

  /** The position of the first row without a NULL, if any. */
  function FirstComplete(rows: seq<seq<Thing>>): (r: Option<nat>)
    ensures r.Some? ==> r.value < |rows| && !HasNone(rows[r.value]) &&
                        forall j :: 0 <= j < r.value ==> HasNone(rows[j])
    ensures r.None? ==> forall j :: 0 <= j < |rows| ==> HasNone(rows[j])
  {
    if rows == [] then None
    else if !HasNone(rows[0]) then Some(0)
    else match FirstComplete(rows[1..])
      case None => None
      case Some(i) => Some(i + 1)
  }

  /** The column-to-type pairs of one row, column by column. */
  function ZipTypes(columns: seq<string>, row: seq<Thing>): (r: ColToType)
    requires |row| == |columns|
    ensures |r| == |columns|
    ensures forall j :: 0 <= j < |r| ==> r[j] == (columns[j], ThingToSqliteType(row[j]))
  {
    seq(|columns|, j requires 0 <= j < |columns| => (columns[j], ThingToSqliteType(row[j])))
  }

  /** The types `to_sqlite` derives and the rows it has read by then. */
  datatype Inferred = Inferred(types: ColToType, collected: seq<seq<Thing>>)

  /** Types come from the first row without a NULL (`zip(strict=True)`
      raises ValueError when that row's length differs from the column
      count); running out of rows first raises StopIteration from `next`. */
  function ToSqliteTypes(columns: seq<string>, rows: seq<seq<Thing>>): (r: Result<Inferred, SErr>)
    ensures r.Err? ==> r.error == StopIteration || r.error == ValueError
  {
    match FirstComplete(rows)
    case None => Err(StopIteration)
    case Some(i) =>
      if |rows[i]| != |columns| then Err(ValueError)
      else Ok(Inferred(FromPairs(ZipTypes(columns, rows[i])), rows[..i + 1]))
  }

  /** The loop as written: every row read is collected, rows with a NULL
      are skipped for typing. */
  method InferQueryTypes(columns: seq<string>, rows: seq<seq<Thing>>) returns (r: Result<Inferred, SErr>)
    ensures r == ToSqliteTypes(columns, rows)
  {
    var collected: seq<seq<Thing>> := [];
    var i := 0;
    while true
      invariant 0 <= i <= |rows|
      invariant collected == rows[..i]
      invariant forall j :: 0 <= j < i ==> HasNone(rows[j])
      decreases |rows| - i
    {
      if i == |rows| {
        return Err(StopIteration);
      }
      var row := rows[i];
      collected := collected + [row];
      assert rows[..i + 1] == rows[..i] + [row];
      i := i + 1;
      if HasNone(row) {
        continue;
      }
      if |row| != |columns| {
        return Err(ValueError);
      }
      return Ok(Inferred(FromPairs(ZipTypes(columns, row)), collected));
    }
  }

  /** Every row is inserted: the collected rows followed by the rest of the
      iterator are the whole result, and the last collected row is the first
      one without a NULL. */
  lemma ToSqliteKeepsRows(columns: seq<string>, rows: seq<seq<Thing>>)
    ensures var r := ToSqliteTypes(columns, rows);
            r.Ok? ==> var c := r.value.collected;
                      1 <= |c| <= |rows| && c + rows[|c|..] == rows && !HasNone(c[|c| - 1]) &&
                      forall j :: 0 <= j < |c| - 1 ==> HasNone(c[j])
  {
    var r := ToSqliteTypes(columns, rows);
    if r.Ok? {
      var i := FirstComplete(rows).value;
      assert r.value.collected == rows[..i + 1];
      TakeDrop(rows, i + 1);
    }
  }

  lemma TakeDrop<T>(s: seq<T>, n: nat)
    requires n <= |s|
    ensures |s[..n]| == n && s[..n] + s[n..] == s
  {
  }

  /** The call fails with StopIteration exactly when every row holds a NULL. */
  lemma ToSqliteStops(columns: seq<string>, rows: seq<seq<Thing>>)
    ensures ToSqliteTypes(columns, rows) == Err(StopIteration) <==> forall j :: 0 <= j < |rows| ==> HasNone(rows[j])
  {
    var f := FirstComplete(rows);
    if f.Some? {
      assert !HasNone(rows[f.value]);
    }
  }

  /** With distinct column names the types are listed column by column, each
      the type of that column's value in the first row without a NULL. */
  lemma ToSqliteColumnTypes(columns: seq<string>, rows: seq<seq<Thing>>)
    requires forall i, j :: 0 <= i < j < |columns| ==> columns[i] != columns[j]
    ensures var r := ToSqliteTypes(columns, rows);
            r.Ok? ==> var row := r.value.collected[|r.value.collected| - 1];
                      |r.value.types| == |columns| == |row| &&
                      forall j :: 0 <= j < |columns| ==> r.value.types[j] == (columns[j], ThingToSqliteType(row[j]))
  {
    var r := ToSqliteTypes(columns, rows);
    if r.Ok? {
      var i := FirstComplete(rows).value;
      var z := ZipTypes(columns, rows[i]);
      FromPairsDistinct(z);
      assert r.value.collected[i] == rows[i];
    }
  }
}
