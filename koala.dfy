/** koala.py's `Koala`: a list of column names and a list of rows that its
    methods update in place (`where`, `column_drop`, `column_add`, `group`,
    `sort`, `rename`, `dropna`, `fillna`) or read (`get`, `as_dicts`), and
    the joins, which build a new table. Each method leaves the table equal
    to the table function of KoalaTable, KoalaGroupBy or KoalaJoin that
    states what it computes. Most methods check everything before their
    first update and so leave the table as it was when they raise;
    `column_drop`, `column_add` and `fillna` can raise IndexError halfway
    through a ragged table, and their state functions say what is left. */
module KoalaFrame {
  import opened Wrappers
  import opened PyDict
  import opened KoalaValues
  import opened KoalaSort
  import opened KoalaTable
  import opened KoalaGroupBy
  import opened KoalaJoin

  /** `del row[position]` for every row, one row at a time; `ok` is false
      when a row without that position stopped the loop. */
  method DeleteCells(rows: seq<seq<Value>>, p: nat) returns (res: seq<seq<Value>>, ok: bool)
    ensures ok <==> forall i :: 0 <= i < |rows| ==> p < |rows[i]|
    ensures res == DeleteColumn(rows, p)
  {
    res := rows;
    var i := 0;
    while i < |rows| && p < |rows[i]|
      invariant i <= |rows| && |res| == |rows|
      invariant forall k :: 0 <= k < i ==> p < |rows[k]| && res[k] == DeleteAt(rows[k], p)
      invariant forall k :: i <= k < |rows| ==> res[k] == rows[k]
    {
      res := res[i := DeleteAt(res[i], p)];
      i := i + 1;
    }
    ShortRowAtIs(rows, p, i);
    ok := i == |rows|;
  }

  /** `for row in rows: row.append(f(self._row_as_dict(row)))`, with
      `cols` the names after the new one is appended. */
  method AppendComputed(cols: seq<string>, rows: seq<seq<Value>>, f: RowDict -> Value) returns (res: seq<seq<Value>>)
    ensures res == AppendCells(cols, rows, f)
  {
    res := rows;
    for i := 0 to |rows|
      invariant |res| == |rows|
      invariant forall k :: 0 <= k < i ==> res[k] == rows[k] + [f(RowAsDict(cols, rows[k]))]
      invariant forall k :: i <= k < |rows| ==> res[k] == rows[k]
    {
      res := res[i := res[i] + [f(RowAsDict(cols, res[i]))]];
    }
  }

  /** Filling the positions `idxs[..j]` of a row, one after the other. */
  lemma {:induction false} FillRowStep(row: seq<Value>, idxs: seq<nat>, j: nat, v: Value)
    requires j < |idxs| && idxs[j] < |row|
    ensures var cur := FillRow(row, idxs[..j], v);
      FillRow(row, idxs[..j + 1], v) == if cur[idxs[j]] == Null then cur[idxs[j] := v] else cur
  {
    var cur := FillRow(row, idxs[..j], v);
    var next := FillRow(row, idxs[..j + 1], v);
    var q := idxs[j];
    assert idxs[..j + 1] == idxs[..j] + [q];
    forall p | 0 <= p < |row|
      ensures next[p] == (if cur[q] == Null then cur[q := v] else cur)[p]
    {
      assert p in idxs[..j + 1] <==> p in idxs[..j] || p == q;
    }
  }

  /** `if self._rows[r][i] is None: self._rows[r][i] = value` for each
      position of one row, up to the first position the row lacks; `ok` is
      false when there was one. */
  method FillCells(row: seq<Value>, idxs: seq<nat>, v: Value) returns (res: seq<Value>, ok: bool)
    ensures ok <==> Reaches(row, idxs)
    ensures res == FillRow(row, idxs[..FirstOut(row, idxs)], v)
  {
    res := row;
    assert FillRow(row, idxs[..0], v) == row;
    var j := 0;
    while j < |idxs| && idxs[j] < |row|
      invariant j <= |idxs| && forall k :: 0 <= k < j ==> idxs[k] < |row|
      invariant res == FillRow(row, idxs[..j], v)
    {
      FillRowStep(row, idxs, j, v);
      if res[idxs[j]] == Null {
        res := res[idxs[j] := v];
      }
      j := j + 1;
    }
    FirstOutIs(row, idxs, j);
    ok := j == |idxs|;
  }

  /** `for r, i in itertools.product(range(len(rows)), idxs)`: each None
      at one of the positions becomes `v`, row after row; `ok` is false when
      a row without one of the positions stopped the loop. */
  method FillEach(rows: seq<seq<Value>>, idxs: seq<nat>, v: Value) returns (res: seq<seq<Value>>, ok: bool)
    ensures ok <==> IndicesFit(rows, idxs)
    ensures res == FillRows(rows, idxs, v)
  {
    res := rows;
    for i := 0 to |rows|
      invariant |res| == |rows|
      invariant forall k :: 0 <= k < i ==> Reaches(rows[k], idxs) && res[k] == FillRow(rows[k], idxs, v)
      invariant forall k :: i <= k < |rows| ==> res[k] == rows[k]
    {
      var row, rowOk := FillCells(res[i], idxs, v);
      res := res[i := row];
      if !rowOk {
        FillRowsStopped(rows, idxs, v, i, res);
        return res, false;
      }
    }
    FirstShortRowIs(rows, idxs, |rows|);
    ok := true;
  }

  /** `list(map(_flatten, rows))`. */
  method FlattenEach(rows: seq<seq<Value>>) returns (res: seq<seq<Value>>)
    ensures |res| == |rows| && forall i :: 0 <= i < |rows| ==> res[i] == Flattened(rows[i])
  {
    res := [];
    for i := 0 to |rows|
      invariant |res| == i && forall k :: 0 <= k < i ==> res[k] == Flattened(rows[k])
    {
      var flat := Flatten(rows[i]);
      res := res + [flat];
    }
  }

  class Koala {
    var cols: seq<string>
    var rows: seq<seq<Value>>

    /** The table the object holds. */
    function State(): Table
      reads this
    {
      Table(cols, rows)
    }

    /** `Koala(_cols, _rows)`. */
    constructor (cols: seq<string>, rows: seq<seq<Value>>)
      ensures State() == Table(cols, rows)
    {
      this.cols := cols;
      this.rows := rows;
    }

    /** `clone()`: a deep copy, a new object with the same table. */
    method Clone() returns (k: Koala)
      ensures fresh(k) && k.State() == State()
    {
      k := new Koala(cols, rows);
    }

    /** `columns` and `shape`: the names, and (number of columns, number
        of rows). */
    method Shape() returns (nCols: nat, nRows: nat)
      ensures nCols == |State().cols| && nRows == |State().rows|
    {
      nCols, nRows := |cols|, |rows|;
    }

    /** `get(col)`: the column's cells, top to bottom; an unknown name
        raises ValueError, a row too short for the column IndexError. */
    method Get(col: string) returns (r: Result<seq<Value>, KErr>)
      ensures r == GetColumn(State(), col)
    {
      var p := ColIndex(cols, col);
      if p.Err? {
        return Err(p.error);
      }
      var cells: seq<Value> := [];
      for i := 0 to |rows|
        invariant |cells| == i && forall k :: 0 <= k < i ==> p.value < |rows[k]| && cells[k] == rows[k][p.value]
      {
        if |rows[i]| <= p.value {
          ShortRowAtIs(rows, p.value, i);
          return Err(IndexError);
        }
        cells := cells + [rows[i][p.value]];
      }
      ShortRowAtIs(rows, p.value, |rows|);
      assert cells == GetColumn(State(), col).value;
      r := Ok(cells);
    }

    /** `where(f)`: the rows whose dict satisfies `f`, in order. */
    method Where(f: RowDict -> bool)
      modifies this
      ensures State() == KoalaTable.Where(old(State()), f)
    {
      rows := KeepRows(Satisfies(f), cols, rows);
    }

    /** `column_drop(col)`: the name and then each row's cell at its first
        position are deleted; an unknown name raises ValueError before any
        change, a row too short raises IndexError after the name and the
        earlier rows' cells are gone. */
    method ColumnDrop(col: string) returns (r: Result<(), KErr>)
      modifies this
      ensures var d := DropColumn(old(State()), col);
        (d.Ok? ==> r == Ok(())) && (d.Err? ==> r == Err(d.error))
      ensures State() == DropColumnState(old(State()), col)
    {
      var position := ColIndex(cols, col);
      if position.Err? {
        return Err(position.error);
      }
      cols := DeleteAt(cols, position.value);
      var ok;
      rows, ok := DeleteCells(rows, position.value);
      r := if ok then Ok(()) else Err(IndexError);
    }

    /** `column_add(name, f)`: the name is appended, each row gets `f` of
        its dict, and an older column of that name is then dropped. */
    method ColumnAdd(name: string, f: RowDict -> Value) returns (r: Result<(), KErr>)
      modifies this
      ensures var a := AddColumn(old(State()), name, f);
        (a.Ok? ==> r == Ok(())) && (a.Err? ==> r == Err(a.error))
      ensures State() == AddColumnState(old(State()), name, f)
    {
      ghost var t := State();
      var dropOld := name in cols;
      cols := cols + [name];
      rows := AppendComputed(cols, rows, f);
      assert State() == Appended(t, name, f);
      if dropOld {
        r := ColumnDrop(name);
      } else {
        r := Ok(());
      }
    }

    /** `group(by, aggs)`: `_groupby`, then `_agg`, then the names and
        each row flattened; an error in either raises before any change. */
    method Group(keyCols: StrS, aggs: seq<Agg>) returns (r: Result<(), KErr>)
      modifies this
      ensures var g := GroupSpec(old(State()), keyCols, aggs);
        (g.Ok? ==> r == Ok(()) && State() == g.value) &&
        (g.Err? ==> r == Err(g.error) && State() == old(State()))
    {
      var groups := GroupBy(Dicts(cols, rows), keyCols, aggs);
      if groups.Err? {
        return Err(groups.error);
      }
      var agg := Aggregate(keyCols, aggs, groups.value);
      if agg.Err? {
        return Err(agg.error);
      }
      var flat := FlattenEach(agg.value.1);
      ghost var entries := AggRows(aggs, groups.value).value;
      assert flat == FlatRows(entries);
      cols := agg.value.0;
      rows := flat;
      r := Ok(());
    }

    /** `sort(by, reverse)` with the key columns `_listify(by)`: an unknown
        name raises ValueError and a row too short for a key column raises
        IndexError, both before any row moves. */
    method Sort(keyCols: StrS, rev: bool) returns (r: Result<(), KErr>)
      modifies this
      ensures var s := KoalaTable.Sort(old(State()), keyCols, rev);
        (s.Ok? ==> r == Ok(()) && State() == s.value) &&
        (s.Err? ==> r == Err(s.error) && State() == old(State()))
    {
      var ii := ColIndices(cols, Listify(keyCols));
      if ii.Err? {
        return Err(ii.error);
      }
      if !IndicesFit(rows, ii.value) {
        return Err(IndexError);
      }
      rows := SortRows(rows, ii.value, rev);
      r := Ok(());
    }

    /** `rename(renamer)`. */
    method Rename(renamer: Dict<string, string>)
      modifies this
      ensures State() == KoalaTable.Rename(old(State()), renamer)
    {
      cols := KoalaTable.Rename(State(), renamer).cols;
    }

    /** `dropna(subset)`. */
    method Dropna(subset: Option<seq<string>>) returns (r: Result<(), KErr>)
      modifies this
      ensures var d := KoalaTable.Dropna(old(State()), subset);
        (d.Ok? ==> r == Ok(()) && State() == d.value) &&
        (d.Err? ==> r == Err(d.error) && State() == old(State()))
    {
      var d := KoalaTable.Dropna(State(), subset);
      if d.Err? {
        return Err(d.error);
      }
      rows := d.value.rows;
      r := Ok(());
    }

    /** `fillna(value, subset)`: every None at a selected position of every
        row becomes the value, row by row; a row without one of the
        positions raises IndexError with the earlier cells already filled. */
    method Fillna(v: Value, subset: Option<seq<string>>) returns (r: Result<(), KErr>)
      modifies this
      ensures var d := KoalaTable.Fillna(old(State()), v, subset);
        (d.Ok? ==> r == Ok(())) && (d.Err? ==> r == Err(d.error))
      ensures State() == FillnaState(old(State()), v, subset)
    {
      var idxs := FillIndices(cols, subset);
      if idxs.Err? {
        return Err(idxs.error);
      }
      var ok;
      rows, ok := FillEach(rows, idxs.value, v);
      r := if ok then Ok(()) else Err(IndexError);
    }

    /** `from_dict_list(ds)`: a new table. */
    static method FromDictList(ds: seq<RowDict>) returns (r: Result<Koala, KErr>)
      ensures var t := KoalaJoin.FromDictList(ds);
        (t.Ok? ==> r.Ok? && fresh(r.value) && r.value.State() == t.value) &&
        (t.Err? ==> r == Err(t.error))
    {
      var t := KoalaJoin.FromDictList(ds);
      if t.Err? {
        return Err(t.error);
      }
      var k := new Koala(t.value.cols, t.value.rows);
      r := Ok(k);
    }

    /** `join_inner(right, join_key)`, `join_left(right, join_key)` and
        `join_right(left, join_key)`: a new table, this one unchanged. */
    method JoinInner(right: Koala, joinKey: StrS, order: seq<string>) returns (r: Result<Koala, KErr>)
      ensures var j := KoalaJoin.JoinInner(State(), right.State(), joinKey, order);
        (j.Ok? ==> r.Ok? && fresh(r.value) && r.value.State() == j.value) &&
        (j.Err? ==> r == Err(j.error))
    {
      var j := JoinTables(State(), right.State(), joinKey, Inner, NoDefault, order);
      r := Wrap(j);
    }

    method JoinLeft(right: Koala, joinKey: StrS, order: seq<string>) returns (r: Result<Koala, KErr>)
      ensures var j := KoalaJoin.JoinLeft(State(), right.State(), joinKey, order);
        (j.Ok? ==> r.Ok? && fresh(r.value) && r.value.State() == j.value) &&
        (j.Err? ==> r == Err(j.error))
    {
      var j := JoinTables(State(), right.State(), joinKey, LeftJoin, EmptyDict, order);
      r := Wrap(j);
    }

    method JoinRight(left: Koala, joinKey: StrS, order: seq<string>) returns (r: Result<Koala, KErr>)
      ensures var j := KoalaJoin.JoinRight(State(), left.State(), joinKey, order);
        (j.Ok? ==> r.Ok? && fresh(r.value) && r.value.State() == j.value) &&
        (j.Err? ==> r == Err(j.error))
    {
      var j := JoinTables(left.State(), State(), joinKey, LeftJoin, EmptyDict, order);
      r := Wrap(j);
    }

    /** `join_cross(right)`: a new table, this one unchanged. */
    method JoinCross(right: Koala) returns (r: Result<Koala, KErr>)
      ensures var j := KoalaJoin.JoinCross(State(), right.State());
        (j.Ok? ==> r.Ok? && fresh(r.value) && r.value.State() == j.value) &&
        (j.Err? ==> r == Err(j.error))
    {
      var j := CrossJoin(State(), right.State());
      r := Wrap(j);
    }

    /** A table result as a new object. */
    static method Wrap(t: Result<Table, KErr>) returns (r: Result<Koala, KErr>)
      ensures t.Ok? ==> r.Ok? && fresh(r.value) && r.value.State() == t.value
      ensures t.Err? ==> r == Err(t.error)
    {
      if t.Err? {
        return Err(t.error);
      }
      var k := new Koala(t.value.cols, t.value.rows);
      r := Ok(k);
    }
  }
}
