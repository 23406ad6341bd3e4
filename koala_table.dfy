/** The table operations of koala.py as functions from the old table to the
    new one (or to the exception raised, in which case the Python object is
    left as it was). The `Koala` class applies them in place. */
module KoalaTable {
  import opened Wrappers
  import opened PyDict
  import opened KoalaValues
  import opened KoalaSort

  datatype KErr = ValueError(msg: string) | KeyError(key: string) | AssertionError | StopIteration | IndexError

  /** `Koala(_cols, _rows)`. */
  datatype Table = Table(cols: seq<string>, rows: seq<seq<Value>>)

  /** Every row has one cell per column. */
  predicate Rectangular(t: Table) {
    forall i :: 0 <= i < |t.rows| ==> |t.rows[i]| == |t.cols|
  }

  /** The row has a cell at each of the positions. */
  predicate Reaches(row: seq<Value>, idxs: seq<nat>) {
    forall j :: 0 <= j < |idxs| ==> idxs[j] < |row|
  }

  /** The first of the positions the row lacks (`|idxs|` when it has them
      all): where indexing the row at the positions in turn raises
      IndexError. */
  function FirstOut(row: seq<Value>, idxs: seq<nat>): (j: nat)
    ensures j <= |idxs|
    ensures forall k :: 0 <= k < j ==> idxs[k] < |row|
    ensures j < |idxs| ==> |row| <= idxs[j]
    ensures j == |idxs| <==> Reaches(row, idxs)
  {
    if idxs == [] then 0
    else if |row| <= idxs[0] then 0
    else
      var j := FirstOut(row, idxs[1..]);
      assert forall k :: 0 < k < |idxs| ==> idxs[k] == idxs[1..][k - 1];
      1 + j
  }

  /** The first row lacking one of the positions (`|rows|` when none does):
      where indexing the rows at the positions, row after row, raises
      IndexError. */
  function FirstShortRow(rows: seq<seq<Value>>, idxs: seq<nat>): (k: nat)
    ensures k <= |rows|
    ensures forall i :: 0 <= i < k ==> Reaches(rows[i], idxs)
    ensures k < |rows| ==> !Reaches(rows[k], idxs)
    ensures k == |rows| <==> IndicesFit(rows, idxs)
  {
    if rows == [] then 0
    else if !Reaches(rows[0], idxs) then 0
    else
      var k := FirstShortRow(rows[1..], idxs);
      assert forall i :: 0 < i < |rows| ==> rows[i] == rows[1..][i - 1];
      1 + k
  }

  lemma ReachesOne(rows: seq<seq<Value>>, p: nat)
    ensures forall i :: 0 <= i < |rows| ==> (Reaches(rows[i], [p]) <==> p < |rows[i]|)
  {
    assert [p][0] == p;
  }

  /** The first row without position `p` (`|rows|` when every row has it). */
  function ShortRowAt(rows: seq<seq<Value>>, p: nat): (k: nat)
    ensures k <= |rows|
    ensures forall i :: 0 <= i < k ==> p < |rows[i]|
    ensures k < |rows| ==> |rows[k]| <= p
    ensures k == |rows| <==> forall i :: 0 <= i < |rows| ==> p < |rows[i]|
  {
    ReachesOne(rows, p);
    FirstShortRow(rows, [p])
  }

  /** The first missing position is the only one with every earlier
      position present. */
  lemma FirstOutIs(row: seq<Value>, idxs: seq<nat>, j: nat)
    requires j <= |idxs| && forall k :: 0 <= k < j ==> idxs[k] < |row|
    requires j < |idxs| ==> |row| <= idxs[j]
    ensures FirstOut(row, idxs) == j
  {
  }

  lemma FirstShortRowIs(rows: seq<seq<Value>>, idxs: seq<nat>, k: nat)
    requires k <= |rows| && forall i :: 0 <= i < k ==> Reaches(rows[i], idxs)
    requires k < |rows| ==> !Reaches(rows[k], idxs)
    ensures FirstShortRow(rows, idxs) == k
  {
  }

  lemma ShortRowAtIs(rows: seq<seq<Value>>, p: nat, k: nat)
    requires k <= |rows| && forall i :: 0 <= i < k ==> p < |rows[i]|
    requires k < |rows| ==> |rows[k]| <= p
    ensures ShortRowAt(rows, p) == k
  {
  }

  predicate DistinctCols(cols: seq<string>) {
    forall i, j :: 0 <= i < j < |cols| ==> cols[i] != cols[j]
  }

  function NotFound(c: string): string {
    "column " + c + " not found"
  }

  /** `_col_index(c)`: `list.index`, the first position holding `c`. */
  function ColIndex(cols: seq<string>, c: string): (r: Result<nat, KErr>)
    ensures r.Ok? <==> c in cols
    ensures r.Ok? ==> r.value < |cols| && cols[r.value] == c
    ensures r.Ok? ==> forall j :: 0 <= j < r.value ==> cols[j] != c
    ensures r.Err? ==> r.error == ValueError(NotFound(c))
  {
    if cols == [] then Err(ValueError(NotFound(c)))
    else if cols[0] == c then Ok(0)
    else match ColIndex(cols[1..], c)
      case Ok(i) => Ok(i + 1)
      case Err(e) => Err(e)
  }

  /** `[self._col_index(c) for c in cs]`: the first unknown name raises. */
  function ColIndices(cols: seq<string>, cs: seq<string>): (r: Result<seq<nat>, KErr>)
    ensures r.Ok? <==> forall i :: 0 <= i < |cs| ==> cs[i] in cols
    ensures r.Ok? ==> |r.value| == |cs|
    ensures r.Ok? ==> forall i :: 0 <= i < |cs| ==> r.value[i] == ColIndex(cols, cs[i]).value
    ensures r.Err? ==> exists i :: 0 <= i < |cs| && cs[i] !in cols && r.error == ValueError(NotFound(cs[i])) &&
                                 (forall j :: 0 <= j < i ==> cs[j] in cols)
  {
    if cs == [] then Ok([])
    else match ColIndex(cols, cs[0])
      case Err(e) => Err(e)
      case Ok(p) =>
        match ColIndices(cols, cs[1..])
        case Err(e) =>
          var i :| 0 <= i < |cs[1..]| && cs[1..][i] !in cols && e == ValueError(NotFound(cs[1..][i])) &&
                   (forall j :: 0 <= j < i ==> cs[1..][j] in cols);
          assert forall j :: 0 <= j < i + 1 ==> cs[j] in cols by {
            forall j | 0 <= j < i + 1 ensures cs[j] in cols {
              if j > 0 { assert cs[j] == cs[1..][j - 1]; }
            }
          }
          Err(e)
        case Ok(ps) =>
          assert forall i :: 0 <= i < |cs| ==> cs[i] in cols by {
            forall i | 0 <= i < |cs| ensures cs[i] in cols {
              if i > 0 { assert cs[i] == cs[1..][i - 1]; }
            }
          }
          Ok([p] + ps)
  }

  /** Names appended after a column do not change where it is found. */
  lemma {:induction false} ColIndexAppend(cols: seq<string>, extra: seq<string>, c: string)
    requires c in cols
    ensures ColIndex(cols + extra, c) == ColIndex(cols, c)
  {
    if cols[0] != c {
      assert (cols + extra)[1..] == cols[1..] + extra;
      ColIndexAppend(cols[1..], extra, c);
    }
  }

  /** `get(col)`: the column's cells, top to bottom; a row too short for
      the column raises IndexError. */
  function GetColumn(t: Table, col: string): (r: Result<seq<Value>, KErr>)
    ensures col !in t.cols ==> r == Err(ValueError(NotFound(col)))
    ensures col in t.cols ==>
      (r.Ok? <==> forall i :: 0 <= i < |t.rows| ==> ColIndex(t.cols, col).value < |t.rows[i]|)
    ensures col in t.cols && r.Err? ==> r.error == IndexError
    ensures r.Ok? ==> |r.value| == |t.rows|
    ensures r.Ok? ==> forall i :: 0 <= i < |t.rows| ==> r.value[i] == t.rows[i][ColIndex(t.cols, col).value]
  {
    var p :- ColIndex(t.cols, col);
    if ShortRowAt(t.rows, p) < |t.rows| then Err(IndexError)
    else Ok(seq(|t.rows|, i requires 0 <= i < |t.rows| => t.rows[i][p]))
  }

  /** `as_dicts()`: one dict per row. */
  function Dicts(cols: seq<string>, rows: seq<seq<Value>>): (ds: seq<RowDict>)
    ensures |ds| == |rows| && forall i :: 0 <= i < |rows| ==> ds[i] == RowAsDict(cols, rows[i])
  {
    seq(|rows|, i requires 0 <= i < |rows| => RowAsDict(cols, rows[i]))
  }

  /** A rectangular row's dict has exactly the table's column names as keys. */
  lemma {:induction false} RowAsDictHas(cols: seq<string>, row: seq<Value>, c: string)
    requires |row| == |cols|
    ensures Get(RowAsDict(cols, row), c).Some? <==> c in cols
  {
    var ps := Zip(cols, row);
    if c in cols {
      var i :| 0 <= i < |cols| && cols[i] == c;
      FromPairsPresent(ps, i, c);
    } else {
      FromPairsAbsent(ps, c);
    }
  }

  /** `del s[p]`. */
  function DeleteAt<T>(s: seq<T>, p: nat): (r: seq<T>)
    requires p < |s|
    ensures |r| == |s| - 1
    ensures forall i :: 0 <= i < |r| ==> r[i] == if i < p then s[i] else s[i + 1]
  {
    s[..p] + s[p + 1..]
  }

  /** Deleting before an appended element commutes with the append. */
  lemma DeleteAtSnoc<T>(s: seq<T>, x: T, p: nat)
    requires p < |s|
    ensures DeleteAt(s + [x], p) == DeleteAt(s, p) + [x]
  {
    assert (s + [x])[..p] == s[..p];
    assert (s + [x])[p + 1..] == s[p + 1..] + [x];
  }

  // ----- column_drop -----

  /** `for row in rows: del row[p]`, stopped by the first row without
      position `p`: the rows before it lose that cell, it and the rows after
      it keep theirs. */
  function DeleteColumn(rows: seq<seq<Value>>, p: nat): (r: seq<seq<Value>>)
    ensures |r| == |rows|
    ensures forall i :: 0 <= i < ShortRowAt(rows, p) ==> r[i] == DeleteAt(rows[i], p)
    ensures forall i :: ShortRowAt(rows, p) <= i < |rows| ==> r[i] == rows[i]
  {
    var k := ShortRowAt(rows, p);
    seq(|rows|, i requires 0 <= i < |rows| => if i < k then DeleteAt(rows[i], p) else rows[i])
  }

  /** `column_drop(col)`: an unknown name raises ValueError, a row without
      the column's position raises IndexError. */
  function DropColumn(t: Table, col: string): (r: Result<Table, KErr>)
    ensures col !in t.cols ==> r == Err(ValueError(NotFound(col)))
    ensures col in t.cols ==>
      (r.Ok? <==> forall i :: 0 <= i < |t.rows| ==> ColIndex(t.cols, col).value < |t.rows[i]|)
    ensures col in t.cols && r.Err? ==> r.error == IndexError
    ensures r.Ok? ==> |r.value.cols| == |t.cols| - 1 && |r.value.rows| == |t.rows|
    ensures r.Ok? && Rectangular(t) ==> Rectangular(r.value)
  {
    var p :- ColIndex(t.cols, col);
    if ShortRowAt(t.rows, p) < |t.rows| then Err(IndexError)
    else Ok(Table(DeleteAt(t.cols, p), DeleteColumn(t.rows, p)))
  }

  /** The table after `column_drop(col)`, whether it raises or not: the
      name goes first, then the cell of each row in turn, until a row too
      short raises and leaves itself and the later rows as they were; an
      unknown name changes nothing. */
  function DropColumnState(t: Table, col: string): (s: Table)
    ensures DropColumn(t, col).Ok? ==> s == DropColumn(t, col).value
    ensures col !in t.cols ==> s == t
    ensures col in t.cols ==>
      var p := ColIndex(t.cols, col).value;
      var k := ShortRowAt(t.rows, p);
      s.cols == DeleteAt(t.cols, p) && |s.rows| == |t.rows| &&
      (forall i :: 0 <= i < k ==> s.rows[i] == DeleteAt(t.rows[i], p)) &&
      (forall i :: k <= i < |t.rows| ==> s.rows[i] == t.rows[i])
  {
    match ColIndex(t.cols, col)
    case Err(_) => t
    case Ok(p) => Table(DeleteAt(t.cols, p), DeleteColumn(t.rows, p))
  }

  /** Deleting a name from distinct names: it is gone, the rest stay distinct
      and each other name moves down by one when it came after it. */
  lemma {:induction false} DeleteAtNames(cols: seq<string>, p: nat, c: string)
    requires p < |cols| && DistinctCols(cols)
    ensures DistinctCols(DeleteAt(cols, p)) && cols[p] !in DeleteAt(cols, p)
    ensures c != cols[p] ==> (c in DeleteAt(cols, p) <==> c in cols)
    ensures c != cols[p] && c in cols ==>
      var q := ColIndex(cols, c).value;
      ColIndex(DeleteAt(cols, p), c).value == if q < p then q else q - 1
  {
    var r := DeleteAt(cols, p);
    if c != cols[p] && c in cols {
      var q := ColIndex(cols, c).value;
      assert r[if q < p then q else q - 1] == c;
    }
    if c != cols[p] && c !in cols {
      assert forall i :: 0 <= i < |r| ==> r[i] in cols;
    }
  }

  /** Deleting position `p` from every row moves the cells at position `q`
      to `q` or `q - 1`. */
  lemma {:induction false} DropColumnKeeps(rows: seq<seq<Value>>, p: nat, q: nat)
    requires forall i :: 0 <= i < |rows| ==> p < |rows[i]| && q < |rows[i]|
    requires p != q
    ensures var q' := if q < p then q else q - 1;
      var r := DeleteColumn(rows, p);
      forall i :: 0 <= i < |rows| ==> q' < |r[i]| && r[i][q'] == rows[i][q]
  {
  }

  /** With distinct names, dropping a column removes it and leaves every
      other column's cells as they were. */
  lemma {:induction false} DropColumnOthers(t: Table, col: string, c: string)
    requires Rectangular(t) && DistinctCols(t.cols) && col in t.cols
    ensures DistinctCols(DropColumn(t, col).value.cols)
    ensures col !in DropColumn(t, col).value.cols
    ensures c != col ==> GetColumn(DropColumn(t, col).value, c) == GetColumn(t, c)
  {
    var r := DropColumn(t, col).value;
    var p := ColIndex(t.cols, col).value;
    DeleteAtNames(t.cols, p, c);
    assert r == Table(DeleteAt(t.cols, p), DeleteColumn(t.rows, p));
    if c != col && c in t.cols {
      var q := ColIndex(t.cols, c).value;
      var q' := if q < p then q else q - 1;
      assert ColIndex(r.cols, c).value == q';
      DropColumnKeeps(t.rows, p, q);
      var a := GetColumn(r, c).value;
      var b := GetColumn(t, c).value;
      assert |a| == |b|;
      forall i | 0 <= i < |a| ensures a[i] == b[i] {
        assert a[i] == r.rows[i][q'];
      }
      assert a == b;
    } else if c != col {
      assert GetColumn(r, c) == Err(ValueError(NotFound(c)));
    }
  }

  // ----- column_add -----

  /** `for row in rows: row.append(f(dict(zip(cols, row))))`. */
  function AppendCells(cols: seq<string>, rows: seq<seq<Value>>, f: RowDict -> Value): (r: seq<seq<Value>>)
    ensures |r| == |rows|
    ensures forall i :: 0 <= i < |rows| ==> r[i] == rows[i] + [f(RowAsDict(cols, rows[i]))]
  {
    seq(|rows|, i requires 0 <= i < |rows| => rows[i] + [f(RowAsDict(cols, rows[i]))])
  }

  /** The names after `column_add(name, f)`. */
  function AddedCols(cols: seq<string>, name: string): (r: seq<string>)
    ensures name in cols ==> r == DeleteAt(cols, ColIndex(cols, name).value) + [name]
    ensures name !in cols ==> r == cols + [name]
  {
    if name in cols then
      ColIndexAppend(cols, [name], name);
      var p := ColIndex(cols + [name], name).value;
      DeleteAtSnoc(cols, name, p);
      DeleteAt(cols + [name], p)
    else cols + [name]
  }

  /** The table once the name and the new cells are appended, before an
      older column of that name is dropped; each row's dict is built with
      the new name already listed. */
  function Appended(t: Table, name: string, f: RowDict -> Value): Table {
    Table(t.cols + [name], AppendCells(t.cols + [name], t.rows, f))
  }

  /** `column_add(name, f)`: the name and `f` of each row's dict are
      appended, then an older column of that name is dropped, which raises
      IndexError on a row shorter than that column's position. */
  function AddColumn(t: Table, name: string, f: RowDict -> Value): (r: Result<Table, KErr>)
    ensures name !in t.cols ==> r.Ok?
    ensures name in t.cols ==>
      (r.Ok? <==> forall i :: 0 <= i < |t.rows| ==> ColIndex(t.cols, name).value <= |t.rows[i]|)
    ensures r.Err? ==> r.error == IndexError
    ensures r.Ok? ==> r.value.cols == AddedCols(t.cols, name) && |r.value.rows| == |t.rows|
  {
    var grown := Appended(t, name, f);
    if name in t.cols then
      ColIndexAppend(t.cols, [name], name);
      DeleteAtSnoc(t.cols, name, ColIndex(t.cols, name).value);
      DropColumn(grown, name)
    else Ok(grown)
  }

  /** The table after `column_add(name, f)`, whether it raises or not: the
      names are those of a successful call, and the rows are left as
      `column_drop` leaves the grown rows. */
  function AddColumnState(t: Table, name: string, f: RowDict -> Value): (s: Table)
    ensures AddColumn(t, name, f).Ok? ==> s == AddColumn(t, name, f).value
    ensures s.cols == AddedCols(t.cols, name) && |s.rows| == |t.rows|
    ensures name !in t.cols ==> s == Appended(t, name, f)
  {
    var grown := Appended(t, name, f);
    if name in t.cols then
      ColIndexAppend(t.cols, [name], name);
      DeleteAtSnoc(t.cols, name, ColIndex(t.cols, name).value);
      DropColumnState(grown, name)
    else grown
  }

  /** Row `i` after `column_add`: its old cells (less the replaced column)
      and then `f` of the dict of its own cells. */
  lemma {:induction false} AddColumnRow(t: Table, name: string, f: RowDict -> Value, i: nat)
    requires Rectangular(t) && i < |t.rows|
    ensures AddColumn(t, name, f).Ok?
    ensures var v := f(RowAsDict(t.cols, t.rows[i]));
      AddColumn(t, name, f).value.rows[i] ==
        if name in t.cols then DeleteAt(t.rows[i], ColIndex(t.cols, name).value) + [v] else t.rows[i] + [v]
  {
    var row := t.rows[i];
    RowAsDictTruncates(t.cols, [name], row);
    AddColumnRowGrown(t, name, f, i);
  }

  lemma {:induction false} AddColumnRowGrown(t: Table, name: string, f: RowDict -> Value, i: nat)
    requires Rectangular(t) && i < |t.rows|
    ensures AddColumn(t, name, f).Ok?
    ensures var v := f(RowAsDict(t.cols + [name], t.rows[i]));
      AddColumn(t, name, f).value.rows[i] ==
        if name in t.cols then DeleteAt(t.rows[i], ColIndex(t.cols, name).value) + [v] else t.rows[i] + [v]
  {
    var row := t.rows[i];
    var v := f(RowAsDict(t.cols + [name], row));
    var grown := Appended(t, name, f);
    assert grown.rows[i] == row + [v];
    if name in t.cols {
      ColIndexAppend(t.cols, [name], name);
      var p := ColIndex(t.cols, name).value;
      assert forall k :: 0 <= k < |grown.rows| ==> p < |grown.rows[k]|;
      assert DeleteColumn(grown.rows, p)[i] == DeleteAt(row + [v], p);
      DeleteAtSnoc(row, v, p);
    }
  }

  /** On a rectangular table the new values, computed from each row's own
      cells, sit in the last column; an existing column of that name is
      removed from its old place, so the column count grows only for a new
      name; the table stays rectangular. */
  lemma {:induction false} AddColumnSpec(t: Table, name: string, f: RowDict -> Value)
    requires Rectangular(t)
    ensures AddColumn(t, name, f).Ok?
    ensures var r := AddColumn(t, name, f).value;
      Rectangular(r) && |r.rows| == |t.rows| &&
      |r.cols| == (if name in t.cols then |t.cols| else |t.cols| + 1) &&
      r.cols[|r.cols| - 1] == name &&
      forall i :: 0 <= i < |t.rows| ==> r.rows[i][|r.cols| - 1] == f(RowAsDict(t.cols, t.rows[i]))
  {
    if name in t.cols {
      assert ColIndex(t.cols, name).value <= |t.cols|;
    }
    var r := AddColumn(t, name, f).value;
    forall i | 0 <= i < |t.rows|
      ensures |r.rows[i]| == |r.cols| && r.rows[i][|r.cols| - 1] == f(RowAsDict(t.cols, t.rows[i]))
    {
      AddColumnRow(t, name, f, i);
    }
  }

  /** A row that ends just before the replaced column keeps exactly its
      cells: `del row[p]` removes the value that was just appended. */
  lemma {:induction false} AddColumnLosesValue(t: Table, name: string, f: RowDict -> Value, i: nat)
    requires name in t.cols && AddColumn(t, name, f).Ok?
    requires i < |t.rows| && |t.rows[i]| == ColIndex(t.cols, name).value
    ensures AddColumn(t, name, f).value.rows[i] == t.rows[i]
  {
    ColIndexAppend(t.cols, [name], name);
    var grown := Appended(t, name, f);
    var p := ColIndex(t.cols, name).value;
    assert forall k :: 0 <= k < |grown.rows| ==> p < |grown.rows[k]|;
    assert DeleteColumn(grown.rows, p)[i] == DeleteAt(grown.rows[i], p);
    assert grown.rows[i][..p] == t.rows[i];
  }

  // ----- where, dropna -----

  /** The test a row must pass to be kept. */
  datatype RowTest =
    | Satisfies(f: RowDict -> bool)  // `where(f)`: `f(self._row_as_dict(r))`
    | NoneFree                       // `dropna()`: no None among the dict's values
    | NonNullAt(idxs: seq<nat>)      // `dropna(subset)`: no None at these positions

  predicate Keeps(test: RowTest, cols: seq<string>, row: seq<Value>) {
    match test
    case Satisfies(f) => f(RowAsDict(cols, row))
    case NoneFree =>
      var d := RowAsDict(cols, row);
      forall j :: 0 <= j < |d| ==> d[j].1 != Null
    case NonNullAt(idxs) => forall j :: 0 <= j < |idxs| ==> idxs[j] < |row| && row[idxs[j]] != Null
  }

  /** `all(r[i] is not None for i in idxs)`: the positions are looked at in
      turn and the first None stops the test, so a missing position raises
      IndexError only when every position before it holds a value. */
  function AllNonNull(row: seq<Value>, idxs: seq<nat>): (r: Result<bool, KErr>)
    ensures r == Ok(true) <==> Keeps(NonNullAt(idxs), [], row)
    ensures r.Err? <==>
      (FirstOut(row, idxs) < |idxs| && forall j :: 0 <= j < FirstOut(row, idxs) ==> row[idxs[j]] != Null)
    ensures r.Err? ==> r.error == IndexError
  {
    if idxs == [] then Ok(true)
    else if |row| <= idxs[0] then Err(IndexError)
    else if row[idxs[0]] == Null then Ok(false)
    else
      var r := AllNonNull(row, idxs[1..]);
      assert forall k :: 0 < k < |idxs| ==> idxs[k] == idxs[1..][k - 1];
      r
  }

  /** `[r for r in rows if keep(r)]`. */
  function KeepRows(test: RowTest, cols: seq<string>, rows: seq<seq<Value>>): (r: seq<seq<Value>>)
    ensures |r| <= |rows|
  {
    if rows == [] then []
    else
      KeepRows(test, cols, rows[..|rows| - 1]) + Kept(test, cols, rows[|rows| - 1])
  }

  /** The row alone when it passes, nothing otherwise. */
  function Kept(test: RowTest, cols: seq<string>, row: seq<Value>): seq<seq<Value>> {
    if Keeps(test, cols, row) then [row] else []
  }

  /** Every kept row is a row that passes. */
  lemma {:induction false} KeepRowsSound(test: RowTest, cols: seq<string>, rows: seq<seq<Value>>)
    ensures forall i :: 0 <= i < |KeepRows(test, cols, rows)| ==>
      KeepRows(test, cols, rows)[i] in rows && Keeps(test, cols, KeepRows(test, cols, rows)[i])
  {
    if rows != [] {
      var init := rows[..|rows| - 1];
      KeepRowsSound(test, cols, init);
      var r := KeepRows(test, cols, rows);
      forall i | 0 <= i < |r| ensures r[i] in rows && Keeps(test, cols, r[i]) {
        if i < |KeepRows(test, cols, init)| {
          assert r[i] == KeepRows(test, cols, init)[i];
          assert r[i] in init;
        } else {
          assert r[i] == rows[|rows| - 1];
        }
      }
    }
  }

  /** Every row that passes is kept. */
  lemma {:induction false} KeepRowsComplete(test: RowTest, cols: seq<string>, rows: seq<seq<Value>>, i: nat)
    requires i < |rows| && Keeps(test, cols, rows[i])
    ensures rows[i] in KeepRows(test, cols, rows)
  {
    if i < |rows| - 1 {
      KeepRowsComplete(test, cols, rows[..|rows| - 1], i);
    }
  }

  /** One more row is kept exactly when it passes. */
  lemma KeepRowsSnoc(test: RowTest, cols: seq<string>, rows: seq<seq<Value>>, x: seq<Value>)
    ensures KeepRows(test, cols, rows + [x]) == KeepRows(test, cols, rows) + Kept(test, cols, x)
  {
    assert (rows + [x])[..|rows|] == rows;
  }

  /** Splitting off the last element of the right operand. */
  lemma AppendSnoc<T>(a: seq<T>, b: seq<T>)
    requires b != []
    ensures b == b[..|b| - 1] + [b[|b| - 1]]
    ensures a + b == (a + b[..|b| - 1]) + [b[|b| - 1]]
  {
  }

  lemma AppendAssoc<T>(x: seq<T>, y: seq<T>, z: seq<T>)
    ensures (x + y) + z == x + (y + z)
  {
  }

  /** Filtering works piecewise, so the kept rows stay in their order. */
  lemma {:induction false} KeepRowsAppend(test: RowTest, cols: seq<string>, a: seq<seq<Value>>, b: seq<seq<Value>>)
    ensures KeepRows(test, cols, a + b) == KeepRows(test, cols, a) + KeepRows(test, cols, b)
    decreases |b|
  {
    if b == [] {
      assert a + b == a;
    } else {
      var init := b[..|b| - 1];
      KeepRowsAppend(test, cols, a, init);
      var last := b[|b| - 1];
      AppendSnoc(a, b);
      KeepRowsSnoc(test, cols, a + init, last);
      KeepRowsSnoc(test, cols, init, last);
      AppendAssoc(KeepRows(test, cols, a), KeepRows(test, cols, init), Kept(test, cols, last));
    }
  }

  /** `where(f)`. */
  function Where(t: Table, f: RowDict -> bool): (r: Table)
    ensures r.cols == t.cols
  {
    Table(t.cols, KeepRows(Satisfies(f), t.cols, t.rows))
  }

  /** `dropna(subset)`: without a subset the rows whose dict holds no None;
      with one, an unknown name raises ValueError, and a row whose test
      raises IndexError fails the whole filter before the rows are
      replaced. */
  function Dropna(t: Table, subset: Option<seq<string>>): (r: Result<Table, KErr>)
    ensures subset.None? ==> r.Ok?
    ensures subset.Some? && ColIndices(t.cols, subset.value).Err? ==>
      r == Err(ColIndices(t.cols, subset.value).error)
    ensures subset.Some? && ColIndices(t.cols, subset.value).Ok? ==>
      var idxs := ColIndices(t.cols, subset.value).value;
      (r.Err? <==> exists i :: 0 <= i < |t.rows| && AllNonNull(t.rows[i], idxs).Err?) &&
      (r.Err? ==> r.error == IndexError)
    ensures r.Ok? ==> r.value.cols == t.cols
  {
    match subset
    case None => Ok(Table(t.cols, KeepRows(NoneFree, t.cols, t.rows)))
    case Some(cs) =>
      var idxs :- ColIndices(t.cols, cs);
      if exists i :: 0 <= i < |t.rows| && AllNonNull(t.rows[i], idxs).Err? then Err(IndexError)
      else Ok(Table(t.cols, KeepRows(NonNullAt(idxs), t.cols, t.rows)))
  }

  /** On a rectangular table `dropna` fails only on an unknown name. */
  lemma {:induction false} DropnaRectangular(t: Table, subset: Option<seq<string>>)
    requires Rectangular(t)
    ensures Dropna(t, subset).Ok? <==>
      (subset.Some? ==> forall i :: 0 <= i < |subset.value| ==> subset.value[i] in t.cols)
  {
    if subset.Some? && ColIndices(t.cols, subset.value).Ok? {
      var idxs := ColIndices(t.cols, subset.value).value;
      forall i | 0 <= i < |t.rows| ensures AllNonNull(t.rows[i], idxs).Ok? {
        assert Reaches(t.rows[i], idxs);
      }
    }
  }

  /** With distinct column names, a row's dict has no None value exactly
      when the row has no None cell. */
  lemma {:induction false} NoneFreeRow(cols: seq<string>, row: seq<Value>)
    requires |row| == |cols| && DistinctCols(cols)
    ensures Keeps(NoneFree, cols, row) <==> Null !in row
  {
    var z := Zip(cols, row);
    assert forall i, j :: 0 <= i < j < |z| ==> z[i].0 != z[j].0;
    FromPairsDistinct(z);
    assert RowAsDict(cols, row) == z;
    assert Keeps(NoneFree, cols, row) <==> (forall j :: 0 <= j < |z| ==> z[j].1 != Null);
    NullFreeZip(cols, row);
  }

  lemma NullFreeZip(cols: seq<string>, row: seq<Value>)
    requires |row| == |cols|
    ensures (forall j :: 0 <= j < |Zip(cols, row)| ==> Zip(cols, row)[j].1 != Null) <==> Null !in row
  {
    var z := Zip(cols, row);
    if Null in row {
      var j :| 0 <= j < |row| && row[j] == Null;
      assert z[j].1 == Null;
    }
  }

  /** `dropna(subset)` keeps exactly the rows with no None in the named
      columns (all columns when no subset is given and the names are
      distinct), in their original order. */
  lemma DropnaSpec(t: Table, subset: Option<seq<string>>, i: nat)
    requires Rectangular(t) && Dropna(t, subset).Ok? && i < |t.rows|
    requires subset.None? ==> DistinctCols(t.cols)
    ensures var cs := if subset.Some? then subset.value else t.cols;
      var kept := Dropna(t, subset).value.rows;
      (forall j :: 0 <= j < |kept| ==>
        kept[j] in t.rows && (forall c :: c in cs ==> kept[j][ColIndex(t.cols, c).value] != Null)) &&
      ((forall c :: c in cs ==> t.rows[i][ColIndex(t.cols, c).value] != Null) ==> t.rows[i] in kept)
  {
    match subset
    case None =>
      assert Dropna(t, subset).value.rows == KeepRows(NoneFree, t.cols, t.rows);
      DropnaAll(t, i);
    case Some(cs) =>
      assert Dropna(t, subset).value.rows == KeepRows(NonNullAt(ColIndices(t.cols, cs).value), t.cols, t.rows);
      DropnaSubset(t, cs, i);
  }

  lemma DropnaAll(t: Table, i: nat)
    requires Rectangular(t) && DistinctCols(t.cols) && i < |t.rows|
    ensures var kept := KeepRows(NoneFree, t.cols, t.rows);
      (forall j :: 0 <= j < |kept| ==>
        kept[j] in t.rows && (forall c :: c in t.cols ==> kept[j][ColIndex(t.cols, c).value] != Null)) &&
      ((forall c :: c in t.cols ==> t.rows[i][ColIndex(t.cols, c).value] != Null) ==> t.rows[i] in kept)
  {
    var kept := KeepRows(NoneFree, t.cols, t.rows);
    KeepRowsSound(NoneFree, t.cols, t.rows);
    forall j | 0 <= j < |kept| ensures forall c :: c in t.cols ==> kept[j][ColIndex(t.cols, c).value] != Null {
      var k :| 0 <= k < |t.rows| && t.rows[k] == kept[j];
      NoneFreeRow(t.cols, kept[j]);
    }
    NoneFreeRow(t.cols, t.rows[i]);
    if forall c :: c in t.cols ==> t.rows[i][ColIndex(t.cols, c).value] != Null {
      assert forall p :: 0 <= p < |t.cols| ==> t.rows[i][p] != Null by {
        forall p | 0 <= p < |t.cols| ensures t.rows[i][p] != Null {
          assert ColIndex(t.cols, t.cols[p]).value == p;
        }
      }
      KeepRowsComplete(NoneFree, t.cols, t.rows, i);
    }
  }

  lemma DropnaSubset(t: Table, cs: seq<string>, i: nat)
    requires Rectangular(t) && ColIndices(t.cols, cs).Ok? && i < |t.rows|
    ensures var kept := KeepRows(NonNullAt(ColIndices(t.cols, cs).value), t.cols, t.rows);
      (forall j :: 0 <= j < |kept| ==>
        kept[j] in t.rows && (forall c :: c in cs ==> kept[j][ColIndex(t.cols, c).value] != Null)) &&
      ((forall c :: c in cs ==> t.rows[i][ColIndex(t.cols, c).value] != Null) ==> t.rows[i] in kept)
  {
    var idxs := ColIndices(t.cols, cs).value;
    var kept := KeepRows(NonNullAt(idxs), t.cols, t.rows);
    KeepRowsSound(NonNullAt(idxs), t.cols, t.rows);
    forall j | 0 <= j < |kept| ensures forall c :: c in cs ==> kept[j][ColIndex(t.cols, c).value] != Null {
      forall c | c in cs ensures kept[j][ColIndex(t.cols, c).value] != Null {
        var k :| 0 <= k < |cs| && cs[k] == c;
        assert idxs[k] == ColIndex(t.cols, c).value;
      }
    }
    if forall c :: c in cs ==> t.rows[i][ColIndex(t.cols, c).value] != Null {
      assert Keeps(NonNullAt(idxs), t.cols, t.rows[i]) by {
        forall k | 0 <= k < |idxs| ensures idxs[k] < |t.rows[i]| && t.rows[i][idxs[k]] != Null {
          assert cs[k] in cs;
        }
      }
      KeepRowsComplete(NonNullAt(idxs), t.cols, t.rows, i);
    }
  }

  // ----- fillna -----

  /** The row with None replaced by `v` at the given positions. */
  function FillRow(row: seq<Value>, idxs: seq<nat>, v: Value): (r: seq<Value>)
    ensures |r| == |row|
  {
    seq(|row|, i requires 0 <= i < |row| => if i in idxs && row[i] == Null then v else row[i])
  }

  /** The positions `fillna(value, subset)` visits. */
  function FillIndices(cols: seq<string>, subset: Option<seq<string>>): (r: Result<seq<nat>, KErr>)
    ensures subset.None? ==> r == Ok(Range(|cols|))
    ensures subset.Some? ==> r == ColIndices(cols, subset.value)
  {
    match subset
    case None => Ok(Range(|cols|))
    case Some(cs) => ColIndices(cols, cs)
  }

  /** Every row filled at the positions. */
  function FilledRows(rows: seq<seq<Value>>, idxs: seq<nat>, v: Value): (r: seq<seq<Value>>)
    ensures |r| == |rows| && forall i :: 0 <= i < |rows| ==> r[i] == FillRow(rows[i], idxs, v)
  {
    seq(|rows|, i requires 0 <= i < |rows| => FillRow(rows[i], idxs, v))
  }

  /** `fillna(value, subset)`: an unknown name raises ValueError, and a row
      without one of the positions raises IndexError. */
  function Fillna(t: Table, v: Value, subset: Option<seq<string>>): (r: Result<Table, KErr>)
    ensures FillIndices(t.cols, subset).Err? ==> r == Err(FillIndices(t.cols, subset).error)
    ensures FillIndices(t.cols, subset).Ok? ==>
      (r.Ok? <==> IndicesFit(t.rows, FillIndices(t.cols, subset).value)) && (r.Err? ==> r.error == IndexError)
    ensures r.Ok? ==> r.value.cols == t.cols && |r.value.rows| == |t.rows|
  {
    var idxs :- FillIndices(t.cols, subset);
    if !IndicesFit(t.rows, idxs) then Err(IndexError)
    else Ok(Table(t.cols, FilledRows(t.rows, idxs, v)))
  }

  /** The rows as the `fillna` loop leaves them, whether it raises or not:
      the (row, position) pairs are visited row by row, so the rows before
      the first short row are filled, that row up to its first missing
      position, and the later rows not at all. */
  function FillRows(rows: seq<seq<Value>>, idxs: seq<nat>, v: Value): (r: seq<seq<Value>>)
    ensures |r| == |rows|
    ensures forall i :: 0 <= i < FirstShortRow(rows, idxs) ==> r[i] == FillRow(rows[i], idxs, v)
    ensures FirstShortRow(rows, idxs) < |rows| ==>
      var k := FirstShortRow(rows, idxs);
      r[k] == FillRow(rows[k], idxs[..FirstOut(rows[k], idxs)], v)
    ensures forall i :: FirstShortRow(rows, idxs) < i < |rows| ==> r[i] == rows[i]
    ensures IndicesFit(rows, idxs) ==> r == FilledRows(rows, idxs, v)
  {
    var k := FirstShortRow(rows, idxs);
    seq(|rows|, i requires 0 <= i < |rows| =>
      if i < k then FillRow(rows[i], idxs, v)
      else if i == k then FillRow(rows[k], idxs[..FirstOut(rows[k], idxs)], v)
      else rows[i])
  }

  /** The table after `fillna(value, subset)`, whether it raises or not; an
      unknown name changes nothing. */
  function FillnaState(t: Table, v: Value, subset: Option<seq<string>>): (s: Table)
    ensures Fillna(t, v, subset).Ok? ==> s == Fillna(t, v, subset).value
    ensures FillIndices(t.cols, subset).Err? ==> s == t
    ensures FillIndices(t.cols, subset).Ok? ==>
      s == Table(t.cols, FillRows(t.rows, FillIndices(t.cols, subset).value, v))
  {
    match FillIndices(t.cols, subset)
    case Err(_) => t
    case Ok(idxs) => Table(t.cols, FillRows(t.rows, idxs, v))
  }

  /** Rows filled up to a short row `k`, which is filled up to its first
      missing position, are the rows `fillna` leaves. */
  lemma {:induction false} FillRowsStopped(rows0: seq<seq<Value>>, idxs: seq<nat>, v: Value, k: nat, rows: seq<seq<Value>>)
    requires k < |rows0| == |rows|
    requires forall i :: 0 <= i < k ==> Reaches(rows0[i], idxs) && rows[i] == FillRow(rows0[i], idxs, v)
    requires !Reaches(rows0[k], idxs) && rows[k] == FillRow(rows0[k], idxs[..FirstOut(rows0[k], idxs)], v)
    requires forall i :: k < i < |rows| ==> rows[i] == rows0[i]
    ensures rows == FillRows(rows0, idxs, v)
  {
    FirstShortRowIs(rows0, idxs, k);
  }

  /** Column `p` is one `fillna(value, subset)` fills: any column without a
      subset, else a named one at its first position. */
  predicate Selected(cols: seq<string>, subset: Option<seq<string>>, p: nat)
    requires p < |cols|
  {
    match subset
    case None => true
    case Some(cs) => cols[p] in cs && ColIndex(cols, cols[p]).value == p
  }

  lemma {:induction false} FillIndicesSelected(cols: seq<string>, subset: Option<seq<string>>, p: nat)
    requires FillIndices(cols, subset).Ok? && p < |cols|
    ensures p in FillIndices(cols, subset).value <==> Selected(cols, subset, p)
  {
    var idxs := FillIndices(cols, subset).value;
    match subset
    case None =>
      assert idxs[p] == p;
    case Some(cs) =>
      if p in idxs {
        var k :| 0 <= k < |idxs| && idxs[k] == p;
        assert cs[k] == cols[p];
      }
      if cols[p] in cs && ColIndex(cols, cols[p]).value == p {
        var k :| 0 <= k < |cs| && cs[k] == cols[p];
        assert idxs[k] == p;
      }
  }

  /** Filling twice fills nothing more. */
  lemma FillRowTwice(row: seq<Value>, idxs: seq<nat>, v: Value)
    ensures FillRow(FillRow(row, idxs, v), idxs, v) == FillRow(row, idxs, v)
  {
  }

  /** Only None cells of the selected columns change, and they become the
      value; the shape is kept. */
  lemma {:induction false} FillnaCells(t: Table, v: Value, subset: Option<seq<string>>, i: nat, p: nat)
    requires Rectangular(t) && Fillna(t, v, subset).Ok?
    requires i < |t.rows| && p < |t.cols|
    ensures var r := Fillna(t, v, subset).value;
      |r.rows[i]| == |t.cols| &&
      r.rows[i][p] == if t.rows[i][p] == Null && Selected(t.cols, subset, p) then v else t.rows[i][p]
  {
    FillIndicesSelected(t.cols, subset, p);
  }

  /** A second `fillna` with the same arguments changes nothing. */
  lemma {:induction false} FillnaIdempotent(t: Table, v: Value, subset: Option<seq<string>>)
    requires Fillna(t, v, subset).Ok?
    ensures Fillna(Fillna(t, v, subset).value, v, subset) == Fillna(t, v, subset)
  {
    var idxs := FillIndices(t.cols, subset).value;
    var r := Fillna(t, v, subset).value;
    forall i | 0 <= i < |r.rows| ensures FillRow(r.rows[i], idxs, v) == r.rows[i] {
      FillRowTwice(t.rows[i], idxs, v);
    }
    assert Fillna(r, v, subset).value.rows == r.rows;
  }

  // ----- rename -----

  /** `rename(renamer)`: each name looked up, unknown names kept. */
  function Rename(t: Table, renamer: Dict<string, string>): (r: Table)
    ensures r.rows == t.rows && |r.cols| == |t.cols|
  {
    Table(seq(|t.cols|, i requires 0 <= i < |t.cols| => GetOr(renamer, t.cols[i], t.cols[i])), t.rows)
  }

  /** `{c: f"{c}{suffix}" for c in cols if c not in keep}`. */
  function SuffixRenamer(cols: seq<string>, keep: seq<string>, suffix: string): Dict<string, string> {
    FromPairs(SuffixPairs(cols, keep, suffix))
  }

  function SuffixPairs(cols: seq<string>, keep: seq<string>, suffix: string): (ps: seq<(string, string)>)
    ensures forall j :: 0 <= j < |ps| ==> ps[j] == (ps[j].0, ps[j].0 + suffix) && ps[j].0 in cols && ps[j].0 !in keep
  {
    if cols == [] then []
    else
      var c := cols[|cols| - 1];
      SuffixPairs(cols[..|cols| - 1], keep, suffix) + (if c in keep then [] else [(c, c + suffix)])
  }

  /** The suffix comprehension as a renamer: a name outside `keep` gets the
      suffix, the others stay. */
  function Suffixed(cols: seq<string>, keep: seq<string>, suffix: string): (r: seq<string>)
    ensures |r| == |cols|
    ensures forall i :: 0 <= i < |cols| ==> r[i] == if cols[i] in keep then cols[i] else cols[i] + suffix
  {
    seq(|cols|, i requires 0 <= i < |cols| => if cols[i] in keep then cols[i] else cols[i] + suffix)
  }

  lemma {:induction false} SuffixPairsHas(cols: seq<string>, keep: seq<string>, suffix: string, i: nat)
    requires i < |cols| && cols[i] !in keep
    ensures exists j :: 0 <= j < |SuffixPairs(cols, keep, suffix)| && SuffixPairs(cols, keep, suffix)[j].0 == cols[i]
  {
    var init := cols[..|cols| - 1];
    var ps := SuffixPairs(cols, keep, suffix);
    if i == |cols| - 1 {
      assert ps[|ps| - 1].0 == cols[i];
    } else {
      SuffixPairsHas(init, keep, suffix, i);
      var j :| 0 <= j < |SuffixPairs(init, keep, suffix)| && SuffixPairs(init, keep, suffix)[j].0 == cols[i];
      assert ps[j] == SuffixPairs(init, keep, suffix)[j];
    }
  }

  /** Renaming with the suffix comprehension gives the suffixed names. */
  lemma RenameSuffixed(t: Table, keep: seq<string>, suffix: string)
    ensures Rename(t, SuffixRenamer(t.cols, keep, suffix)).cols == Suffixed(t.cols, keep, suffix)
  {
    var r := Rename(t, SuffixRenamer(t.cols, keep, suffix)).cols;
    var e := Suffixed(t.cols, keep, suffix);
    forall i | 0 <= i < |t.cols| ensures r[i] == e[i] {
      SuffixRenamerAt(t.cols, keep, suffix, i);
    }
  }

  /** The renamer gives a name outside `keep` the suffix and leaves the others. */
  lemma SuffixRenamerAt(cols: seq<string>, keep: seq<string>, suffix: string, i: nat)
    requires i < |cols|
    ensures GetOr(SuffixRenamer(cols, keep, suffix), cols[i], cols[i]) ==
            if cols[i] in keep then cols[i] else cols[i] + suffix
  {
    var ps := SuffixPairs(cols, keep, suffix);
    var c := cols[i];
    if c in keep {
      FromPairsAbsent(ps, c);
    } else {
      SuffixPairsHas(cols, keep, suffix, i);
      var j :| 0 <= j < |ps| && ps[j].0 == c;
      FromPairsPresent(ps, j, c);
      FromPairsFrom(ps, c);
    }
  }

  /** Renaming back with a renamer that undoes each change restores the
      names; a renamer that names no column changes nothing. */
  lemma {:induction false} RenameBack(t: Table, there: Dict<string, string>, back: Dict<string, string>)
    requires forall i :: 0 <= i < |t.cols| ==>
      var n := GetOr(there, t.cols[i], t.cols[i]);
      GetOr(back, n, n) == t.cols[i]
    ensures Rename(Rename(t, there), back) == t
  {
    var r := Rename(Rename(t, there), back);
    assert r.cols == t.cols by {
      forall i | 0 <= i < |t.cols| ensures r.cols[i] == t.cols[i] {
        assert Rename(t, there).cols[i] == GetOr(there, t.cols[i], t.cols[i]);
      }
    }
  }

  // ----- sort -----

  /** The columns `sort(by)` looks up, as written: `[... for c in by]`
      iterates over the characters when `by` is a single name. */
  function SortColumnsAsWritten(keyCols: StrS): (r: seq<string>)
    ensures keyCols.One? ==> |r| == |keyCols.name| && forall i :: 0 <= i < |r| ==> r[i] == [keyCols.name[i]]
    ensures keyCols.Many? ==> r == keyCols.names
  {
    match keyCols
    case One(s) => seq(|s|, i requires 0 <= i < |s| => [s[i]])
    case Many(ns) => ns
  }

  /** `sort(by, reverse)` as written. The keys are all computed before
      any row moves, so a row too short for a key column raises IndexError
      with the rows as they were. */
  function SortAsWritten(t: Table, keyCols: StrS, rev: bool): (r: Result<Table, KErr>)
    ensures ColIndices(t.cols, SortColumnsAsWritten(keyCols)).Err? ==>
      r == Err(ColIndices(t.cols, SortColumnsAsWritten(keyCols)).error)
    ensures ColIndices(t.cols, SortColumnsAsWritten(keyCols)).Ok? ==>
      (r.Ok? <==> IndicesFit(t.rows, ColIndices(t.cols, SortColumnsAsWritten(keyCols)).value)) &&
      (r.Err? ==> r.error == IndexError)
    ensures r.Ok? ==> r.value.cols == t.cols && |r.value.rows| == |t.rows|
  {
    var ii :- ColIndices(t.cols, SortColumnsAsWritten(keyCols));
    if !IndicesFit(t.rows, ii) then Err(IndexError)
    else Ok(Table(t.cols, SortRows(t.rows, ii, rev)))
  }

  /** Sorting a one-column table by its single column name, given as a
      string of two characters, looks up the first character and fails. */
  lemma {:induction false} SortByStringFails()
    ensures SortAsWritten(Table(["ab"], [[Num(1.0)]]), One("ab"), false) == Err(ValueError(NotFound("a")))
  {
    var cs := SortColumnsAsWritten(One("ab"));
    assert cs[0] == "a";
    assert "a" != "ab";
    assert ColIndices(["ab"], cs).Err?;
  }

  /** `sort(by, reverse)` with the key columns `_listify(by)`: an unknown
      name raises ValueError and a row too short for a key column raises
      IndexError, both before any row moves. */
  function Sort(t: Table, keyCols: StrS, rev: bool): (r: Result<Table, KErr>)
    ensures ColIndices(t.cols, Listify(keyCols)).Err? ==> r == Err(ColIndices(t.cols, Listify(keyCols)).error)
    ensures ColIndices(t.cols, Listify(keyCols)).Ok? ==>
      (r.Ok? <==> IndicesFit(t.rows, ColIndices(t.cols, Listify(keyCols)).value)) && (r.Err? ==> r.error == IndexError)
    ensures Rectangular(t) ==> (r.Ok? <==> forall c :: c in Listify(keyCols) ==> c in t.cols)
    ensures r.Ok? ==> r.value.cols == t.cols && |r.value.rows| == |t.rows|
    ensures r.Ok? && Rectangular(t) ==> Rectangular(r.value)
  {
    var ii :- ColIndices(t.cols, Listify(keyCols));
    if !IndicesFit(t.rows, ii) then Err(IndexError)
    else
      var r := SortRows(t.rows, ii, rev);
      assert |r| == |t.rows| && forall i :: 0 <= i < |r| ==> r[i] in t.rows by {
        SortRowsSpec(t.rows, ii, rev);
        var order := SortOrder(t.rows, ii, rev, |t.rows|);
        assert forall i :: 0 <= i < |r| ==> r[i] == t.rows[order[i]];
      }
      Ok(Table(t.cols, r))
  }

  /** The key cells of a row: its cells in the sort columns. */
  function SortKey(t: Table, row: seq<Value>, cs: seq<string>): (k: seq<Value>)
    requires |row| == |t.cols| && forall c :: c in cs ==> c in t.cols
    ensures |k| == |cs| && forall j :: 0 <= j < |cs| ==> k[j] == row[ColIndex(t.cols, cs[j]).value]
  {
    seq(|cs|, j requires 0 <= j < |cs| => row[ColIndex(t.cols, cs[j]).value])
  }

  /** The sorted rows are a permutation of the rows whose key cells are in
      non-decreasing order (non-increasing when reversed), rows with equal
      keys keeping their relative order. */
  lemma {:induction false} SortSpec(t: Table, keyCols: StrS, rev: bool)
    requires Rectangular(t) && Sort(t, keyCols, rev).Ok?
    ensures var cs := Listify(keyCols);
      var ii := ColIndices(t.cols, cs).value;
      var order := SortOrder(t.rows, ii, rev, |t.rows|);
      var r := Sort(t, keyCols, rev).value.rows;
      multiset(order) == multiset(Range(|t.rows|)) &&
      (forall i :: 0 <= i < |r| ==> r[i] == t.rows[order[i]]) &&
      (forall i, j :: 0 <= i < j < |r| ==>
        var a := SortKey(t, r[i], cs);
        var b := SortKey(t, r[j], cs);
        (if rev then SeqLe(b, a) else SeqLe(a, b)) && (a == b ==> order[i] < order[j]))
  {
    var ii := ColIndices(t.cols, Listify(keyCols)).value;
    assert Sort(t, keyCols, rev).value.rows == SortRows(t.rows, ii, rev);
    SortRowsSpec(t.rows, ii, rev);
    SortSpecKeys(t, keyCols, rev);
  }

  /** The table-level keys are the row-level keys of the sort. */
  lemma SortSpecKeys(t: Table, keyCols: StrS, rev: bool)
    requires Rectangular(t) && Sort(t, keyCols, rev).Ok?
    ensures var cs := Listify(keyCols);
      var ii := ColIndices(t.cols, cs).value;
      var r := Sort(t, keyCols, rev).value.rows;
      forall i :: 0 <= i < |r| ==> SortKey(t, r[i], cs) == Key(r[i], ii)
  {
  }

  /** A single name sorts like a list holding that one name. */
  lemma {:induction false} SortOneName(t: Table, c: string, rev: bool)
    ensures Sort(t, One(c), rev) == Sort(t, Many([c]), rev)
  {
    assert Listify(One(c)) == Listify(Many([c]));
  }
}
