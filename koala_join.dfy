/** The joins of koala.py and `from_dict_list`, which builds their result.
    `_join` renames the non-key columns of both sides with `_left` and
    `_right`, indexes the right rows by their join-key tuple, and emits, for
    each left row in order, one merged row per right row with an equal key,
    in right order. `join_cross` merges every left row with every right row.
    A row's join key is the tuple of its key cells; Python hashes that
    tuple, and hash collisions are not modelled. The column order of the
    result comes from iterating a `set`, so it is a parameter here. */
module KoalaJoin {
  import opened Wrappers
  import opened PyDict
  import opened KoalaValues
  import opened KoalaGroups
  import opened KoalaTable
  import opened KoalaGroupBy

  // ----- from_dict_list -----

  /** `[[r[k] for k in cols] for r in ds]`: the first missing key raises. */
  function LookupRows(ds: seq<RowDict>, cols: seq<string>): (r: Result<seq<seq<Value>>, KErr>)
    ensures r.Ok? ==> |r.value| == |ds|
    ensures r.Err? ==> r.error.KeyError?
  {
    if ds == [] then Ok([])
    else
      var n := |ds| - 1;
      var init :- LookupRows(ds[..n], cols);
      var row :- Lookups(ds[n], cols);
      Ok(init + [row])
  }

  /** Every dict has every name: the lookups succeed. */
  lemma {:induction false} LookupRowsOk(ds: seq<RowDict>, cols: seq<string>)
    requires forall i :: 0 <= i < |ds| ==> Lookups(ds[i], cols).Ok?
    ensures LookupRows(ds, cols).Ok?
  {
    if ds != [] {
      var n := |ds| - 1;
      assert forall i :: 0 <= i < n ==> ds[..n][i] == ds[i];
      LookupRowsOk(ds[..n], cols);
    }
  }

  /** Some dict lacks a name: KeyError. */
  lemma LookupRowsErr(ds: seq<RowDict>, cols: seq<string>, i: nat)
    requires i < |ds| && Lookups(ds[i], cols).Err?
    ensures LookupRows(ds, cols).Err?
  {
    if LookupRows(ds, cols).Ok? {
      LookupRowsAt(ds, cols, i);
    }
  }

  /** The rows of a successful lookup: row i lists dict i's values. */
  lemma {:induction false} LookupRowsAt(ds: seq<RowDict>, cols: seq<string>, i: nat)
    requires LookupRows(ds, cols).Ok? && i < |ds|
    ensures Lookups(ds[i], cols) == Ok(LookupRows(ds, cols).value[i])
  {
    var n := |ds| - 1;
    var init := LookupRows(ds[..n], cols).value;
    var row := Lookups(ds[n], cols).value;
    assert LookupRows(ds, cols).value == init + [row];
    if i < n {
      LookupRowsAt(ds[..n], cols, i);
      assert ds[..n][i] == ds[i];
      assert (init + [row])[i] == init[i];
    } else {
      assert i == n;
      assert (init + [row])[n] == row;
    }
  }

  /** `from_dict_list(ds)`: the columns are the keys of the first dict (an
      empty list makes `next` raise StopIteration), and each row lists every
      dict's values under those keys. */
  function FromDictList(ds: seq<RowDict>): (r: Result<Table, KErr>)
    ensures ds == [] ==> r == Err(StopIteration)
    ensures ds != [] && r.Err? ==> r.error.KeyError?
    ensures r.Ok? ==> r.value.cols == Keys(ds[0]) && |r.value.rows| == |ds|
  {
    if ds == [] then Err(StopIteration)
    else
      var cols := Keys(ds[0]);
      var rows :- LookupRows(ds, cols);
      Ok(Table(cols, rows))
  }

  /** With distinct names, a full-width row's dict lists the names in order
      and gives back the row. */
  lemma {:induction false} RowAsDictKeys(cols: seq<string>, row: seq<Value>)
    requires |row| == |cols| && DistinctCols(cols)
    ensures Keys(RowAsDict(cols, row)) == cols
  {
    var ps := Zip(cols, row);
    FromPairsDistinct(ps);
    var ks := Keys(RowAsDict(cols, row));
    assert |ks| == |cols|;
    forall i | 0 <= i < |cols| ensures ks[i] == cols[i] {
      assert ps[i] == (cols[i], row[i]);
    }
  }

  lemma {:induction false} RowAsDictLookups(cols: seq<string>, row: seq<Value>)
    requires |row| == |cols| && DistinctCols(cols)
    ensures Lookups(RowAsDict(cols, row), cols) == Ok(row)
  {
    var d := RowAsDict(cols, row);
    forall i | 0 <= i < |cols| ensures Get(d, cols[i]) == Some(row[i]) {
      RowAsDictLookup(cols, row, i);
    }
    var r := Lookups(d, cols);
    assert r.Ok?;
    assert |r.value| == |row|;
    forall i | 0 <= i < |cols| ensures r.value[i] == row[i] {
      assert r.value[i] == Get(d, cols[i]).value;
    }
    assert r.value == row;
  }

  /** `from_dict_list(as_dicts())` gives the table back when it has rows
      and distinct column names. */
  lemma {:induction false} FromDictListDicts(t: Table)
    requires Rectangular(t) && DistinctCols(t.cols) && t.rows != []
    ensures FromDictList(Dicts(t.cols, t.rows)) == Ok(t)
  {
    var ds := Dicts(t.cols, t.rows);
    RowAsDictKeys(t.cols, t.rows[0]);
    LookupRowsDicts(t);
    assert Keys(ds[0]) == t.cols;
  }

  lemma {:induction false} LookupRowsDicts(t: Table)
    requires Rectangular(t) && DistinctCols(t.cols)
    ensures LookupRows(Dicts(t.cols, t.rows), t.cols) == Ok(t.rows)
  {
    var ds := Dicts(t.cols, t.rows);
    forall i | 0 <= i < |ds| ensures Lookups(ds[i], t.cols) == Ok(t.rows[i]) {
      RowAsDictLookups(t.cols, t.rows[i]);
    }
    LookupRowsOk(ds, t.cols);
    var rows := LookupRows(ds, t.cols).value;
    forall i | 0 <= i < |ds| ensures rows[i] == t.rows[i] {
      LookupRowsAt(ds, t.cols, i);
    }
    assert rows == t.rows;
  }

  // ----- merging rows -----

  /** `row = copy.deepcopy(left_row); row.update(rr)`, and also
      `left_row | right_row`: the right dict's pairs assigned in order. */
  function Update(row: RowDict, rr: RowDict): (r: RowDict)
    requires DistinctKeys(row)
    ensures DistinctKeys(r)
  {
    if rr == [] then row
    else Put(Update(row, rr[..|rr| - 1]), rr[|rr| - 1].0, rr[|rr| - 1].1)
  }

  /** A merged row has the right dict's value for its keys and the left
      dict's value for the others. */
  lemma {:induction false} UpdateGet(row: RowDict, rr: RowDict, k: string)
    requires DistinctKeys(row) && DistinctKeys(rr)
    ensures Get(Update(row, rr), k) == if Get(rr, k).Some? then Get(rr, k) else Get(row, k)
  {
    if rr != [] {
      var init := rr[..|rr| - 1];
      UpdateGet(row, init, k);
      GetLast(rr, k);
    }
  }

  /** `[row.get(c) for c in cols]`, the cells of `{c: row.get(c) for c in
      cols}`: None for a name the row lacks. */
  function Cells(row: RowDict, order: seq<string>): (r: seq<Value>)
    ensures |r| == |order|
  {
    if order == [] then []
    else Cells(row, order[..|order| - 1]) + [GetOr(row, order[|order| - 1], Null)]
  }

  lemma {:induction false} CellsAt(row: RowDict, order: seq<string>, p: nat)
    requires p < |order|
    ensures Cells(row, order)[p] == GetOr(row, order[p], Null)
  {
    if p < |order| - 1 {
      CellsAt(row, order[..|order| - 1], p);
    }
  }

  /** A cell of a merged row: the right row's value when it has the name,
      else the left row's, else None. */
  lemma {:induction false} MergedCell(ld: RowDict, rd: RowDict, order: seq<string>, p: nat)
    requires DistinctKeys(ld) && DistinctKeys(rd) && p < |order|
    ensures Cells(Update(ld, rd), order)[p] ==
      if Get(rd, order[p]).Some? then Get(rd, order[p]).value else GetOr(ld, order[p], Null)
  {
    CellsAt(Update(ld, rd), order, p);
    UpdateGet(ld, rd, order[p]);
  }

  // ----- _join -----

  /** `_JoinKind`. */
  datatype JoinKind = Inner | LeftJoin

  /** The `default` of `right_dict.get`: `None` or `dict()`. */
  datatype Default = NoDefault | EmptyDict

  /** `right_dict`: key tuple to the right rows' dicts carrying it. */
  type Index = Dict<seq<Value>, seq<RowDict>>

  /** The loop filling `right_dict`: each right dict appended under its key
      tuple; a dict lacking a key column raises KeyError. */
  function RightIndex(rds: seq<RowDict>, jk: seq<string>): (r: Result<Index, KErr>)
    ensures r.Ok? ==> DistinctKeys(r.value)
    ensures r.Err? ==> r.error.KeyError?
  {
    if rds == [] then Ok([])
    else
      var n := |rds| - 1;
      var idx :- RightIndex(rds[..n], jk);
      var key :- Lookups(rds[n], jk);
      Ok(AppendTo(idx, key, rds[n]))
  }

  /** The rows' key tuples, when every row has the key columns. */
  function KeyTuples(ds: seq<RowDict>, jk: seq<string>): (ks: seq<seq<Value>>)
    requires forall i :: 0 <= i < |ds| ==> Lookups(ds[i], jk).Ok?
    ensures |ks| == |ds|
  {
    if ds == [] then []
    else
      var n := |ds| - 1;
      assert forall i :: 0 <= i < n ==> ds[..n][i] == ds[i];
      KeyTuples(ds[..n], jk) + [Lookups(ds[n], jk).value]
  }

  /** `right_dict` is the grouping of the right dicts by their key tuples:
      each key maps to the dicts carrying it, in order. */
  lemma {:induction false} RightIndexGrouped(rds: seq<RowDict>, jk: seq<string>)
    requires forall i :: 0 <= i < |rds| ==> Lookups(rds[i], jk).Ok?
    ensures RightIndex(rds, jk) == Ok(Grouped(KeyTuples(rds, jk), rds))
  {
    if rds != [] {
      var n := |rds| - 1;
      var init := rds[..n];
      assert forall i :: 0 <= i < n ==> init[i] == rds[i];
      RightIndexGrouped(init, jk);
      var ks := KeyTuples(rds, jk);
      assert ks == KeyTuples(init, jk) + [Lookups(rds[n], jk).value];
      assert ks[..n] == KeyTuples(init, jk);
    }
  }

  /** A right dict lacking a key column makes the index raise. */
  lemma {:induction false} RightIndexErr(rds: seq<RowDict>, jk: seq<string>, i: nat)
    requires i < |rds| && Lookups(rds[i], jk).Err?
    ensures RightIndex(rds, jk).Err?
  {
    var n := |rds| - 1;
    var prev := RightIndex(rds[..n], jk);
    if i < n {
      assert rds[..n][i] == rds[i];
      RightIndexErr(rds[..n], jk, i);
      assert prev.Err?;
    } else {
      assert i == n;
      assert prev.Err? || Lookups(rds[n], jk).Err?;
    }
  }

  /** The dicts `for rr in right_row: ... result.append(...)` adds for one
      left row. */
  function Merged(ld: RowDict, rrs: seq<RowDict>, order: seq<string>): (r: seq<RowDict>)
    requires DistinctKeys(ld)
    ensures |r| == |rrs|
  {
    if rrs == [] then []
    else Merged(ld, rrs[..|rrs| - 1], order) + [RowAsDict(order, Cells(Update(ld, rrs[|rrs| - 1]), order))]
  }

  /** The loop of `_join` over the left rows' dicts. A left row without a
      match is skipped under INNER (`continue`) and yields nothing when the
      default is `dict()`; under LEFT with a `None` default the `assert`
      fails. */
  function JoinRows(lcols: seq<string>, lrows: seq<seq<Value>>, index: Index, jk: seq<string>,
                    kind: JoinKind, dflt: Default, order: seq<string>): (r: Result<seq<RowDict>, KErr>)
  {
    if lrows == [] then Ok([])
    else
      var n := |lrows| - 1;
      var acc :- JoinRows(lcols, lrows[..n], index, jk, kind, dflt, order);
      var ld := RowAsDict(lcols, lrows[n]);
      var key :- Lookups(ld, jk);
      match Get(index, key)
      case Some(rrs) => Ok(acc + Merged(ld, rrs, order))
      case None =>
        if dflt == EmptyDict || kind == Inner then Ok(acc)
        else Err(AssertionError)
  }

  /** The failures of the loop: a join-key column missing from a left row,
      or the `assert` of a LEFT join without a default. */
  lemma {:induction false} JoinRowsErrors(lcols: seq<string>, lrows: seq<seq<Value>>, index: Index, jk: seq<string>,
                                          kind: JoinKind, dflt: Default, order: seq<string>)
    ensures var r := JoinRows(lcols, lrows, index, jk, kind, dflt, order);
      r.Err? ==> r.error.KeyError? || (r.error == AssertionError && kind == LeftJoin && dflt == NoDefault)
  {
    if lrows != [] {
      JoinRowsErrors(lcols, lrows[..|lrows| - 1], index, jk, kind, dflt, order);
    }
  }

  /** `_join(left, right, join_key, kind, default)`, with `order` the
      iteration order of `set(left._cols).union(right._cols)`. */
  function Join(l: Table, r: Table, joinKey: StrS, kind: JoinKind, dflt: Default, order: seq<string>): (res: Result<Table, KErr>)
    ensures res.Err? ==>
      res.error.KeyError? || res.error == StopIteration || (res.error == AssertionError && kind == LeftJoin && dflt == NoDefault)
  {
    var jk := Listify(joinKey);
    var lt := Rename(l, SuffixRenamer(l.cols, jk, "_left"));
    var rt := Rename(r, SuffixRenamer(r.cols, jk, "_right"));
    var index :- RightIndex(Dicts(rt.cols, rt.rows), jk);
    JoinRowsErrors(lt.cols, lt.rows, index, jk, kind, dflt, order);
    var result :- JoinRows(lt.cols, lt.rows, index, jk, kind, dflt, order);
    FromDictList(result)
  }

  /** `join_inner(right, join_key)`. */
  function JoinInner(l: Table, r: Table, joinKey: StrS, order: seq<string>): (res: Result<Table, KErr>)
    ensures res.Err? ==> res.error.KeyError? || res.error == StopIteration
  {
    Join(l, r, joinKey, Inner, NoDefault, order)
  }

  /** `join_left(right, join_key)`. */
  function JoinLeft(l: Table, r: Table, joinKey: StrS, order: seq<string>): (res: Result<Table, KErr>)
    ensures res.Err? ==> res.error.KeyError? || res.error == StopIteration
  {
    Join(l, r, joinKey, LeftJoin, EmptyDict, order)
  }

  /** `join_right(left, join_key)`: the other table on the left. */
  function JoinRight(t: Table, left: Table, joinKey: StrS, order: seq<string>): (res: Result<Table, KErr>)
    ensures res.Err? ==> res.error.KeyError? || res.error == StopIteration
  {
    Join(left, t, joinKey, LeftJoin, EmptyDict, order)
  }

  // ----- the inner join as a nested loop -----

  /** The rows one left dict contributes when every right dict is compared
      with it directly: one merged row per right dict with the same key
      tuple, in right order. */
  function PairRows(ld: RowDict, rds: seq<RowDict>, jk: seq<string>, order: seq<string>): (r: seq<seq<Value>>)
    requires DistinctKeys(ld)
    ensures |r| <= |rds|
    ensures forall i :: 0 <= i < |r| ==> |r[i]| == |order|
  {
    if rds == [] then []
    else
      var n := |rds| - 1;
      PairRows(ld, rds[..n], jk, order) +
        (if Lookups(rds[n], jk) == Lookups(ld, jk) then [Cells(Update(ld, rds[n]), order)] else [])
  }

  /** The nested-loop inner join of the left rows with the right dicts. */
  function InnerRows(lcols: seq<string>, lrows: seq<seq<Value>>, rds: seq<RowDict>, jk: seq<string>,
                     order: seq<string>): (r: seq<seq<Value>>)
    ensures forall i :: 0 <= i < |r| ==> |r[i]| == |order|
  {
    if lrows == [] then []
    else
      var n := |lrows| - 1;
      InnerRows(lcols, lrows[..n], rds, jk, order) + PairRows(RowAsDict(lcols, lrows[n]), rds, jk, order)
  }

  lemma {:induction false} DictsConcat(order: seq<string>, a: seq<seq<Value>>, b: seq<seq<Value>>)
    ensures Dicts(order, a + b) == Dicts(order, a) + Dicts(order, b)
  {
    var l := Dicts(order, a + b);
    var m := Dicts(order, a) + Dicts(order, b);
    assert |l| == |m|;
    forall i | 0 <= i < |l| ensures l[i] == m[i] {
      if i < |a| {
        assert (a + b)[i] == a[i];
      } else {
        assert (a + b)[i] == b[i - |a|];
      }
    }
  }

  lemma {:induction false} MergedSnoc(ld: RowDict, rrs: seq<RowDict>, x: RowDict, order: seq<string>)
    requires DistinctKeys(ld)
    ensures Merged(ld, rrs + [x], order) == Merged(ld, rrs, order) + [RowAsDict(order, Cells(Update(ld, x), order))]
  {
    assert (rrs + [x])[..|rrs|] == rrs;
  }

  lemma {:induction false} KeyTuplesLast(ds: seq<RowDict>, jk: seq<string>)
    requires ds != [] && forall i :: 0 <= i < |ds| ==> Lookups(ds[i], jk).Ok?
    ensures KeyTuples(ds, jk)[..|ds| - 1] == KeyTuples(ds[..|ds| - 1], jk)
    ensures KeyTuples(ds, jk)[|ds| - 1] == Lookups(ds[|ds| - 1], jk).value
  {
    var n := |ds| - 1;
    assert KeyTuples(ds, jk) == KeyTuples(ds[..n], jk) + [Lookups(ds[n], jk).value];
  }

  lemma {:induction false} SelectLast<K, V>(ks: seq<K>, vs: seq<V>, k: K)
    requires |ks| == |vs| && ks != []
    ensures Select(ks, vs, k) ==
      if ks[|ks| - 1] == k then Select(ks[..|ks| - 1], vs[..|vs| - 1], k) + [vs[|vs| - 1]]
      else Select(ks[..|ks| - 1], vs[..|vs| - 1], k)
  {
    var s0 := Select(ks[..|ks| - 1], vs[..|vs| - 1], k);
    assert s0 + [] == s0;
  }

  lemma {:induction false} PairRowsLast(ld: RowDict, rds: seq<RowDict>, jk: seq<string>, order: seq<string>)
    requires DistinctKeys(ld) && rds != []
    ensures PairRows(ld, rds, jk, order) ==
      var n := |rds| - 1;
      if Lookups(rds[n], jk) == Lookups(ld, jk) then PairRows(ld, rds[..n], jk, order) + [Cells(Update(ld, rds[n]), order)]
      else PairRows(ld, rds[..n], jk, order)
  {
    var p0 := PairRows(ld, rds[..|rds| - 1], jk, order);
    assert p0 + [] == p0;
  }

  /** The index lookup finds, for one left dict, exactly the right dicts
      the nested loop pairs it with. */
  lemma {:induction false} MergedSelect(ld: RowDict, rds: seq<RowDict>, jk: seq<string>, order: seq<string>)
    requires DistinctKeys(ld) && Lookups(ld, jk).Ok?
    requires forall i :: 0 <= i < |rds| ==> Lookups(rds[i], jk).Ok?
    ensures Merged(ld, Select(KeyTuples(rds, jk), rds, Lookups(ld, jk).value), order) ==
      Dicts(order, PairRows(ld, rds, jk, order))
  {
    if rds != [] {
      var n := |rds| - 1;
      var init := rds[..n];
      assert forall i :: 0 <= i < n ==> init[i] == rds[i];
      MergedSelect(ld, init, jk, order);
      MergedSelectStep(ld, rds, jk, order);
    }
  }

  lemma {:induction false} MergedSelectStep(ld: RowDict, rds: seq<RowDict>, jk: seq<string>, order: seq<string>)
    requires DistinctKeys(ld) && Lookups(ld, jk).Ok? && rds != []
    requires forall i :: 0 <= i < |rds| ==> Lookups(rds[i], jk).Ok?
    requires var init := rds[..|rds| - 1];
      Merged(ld, Select(KeyTuples(init, jk), init, Lookups(ld, jk).value), order) ==
      Dicts(order, PairRows(ld, init, jk, order))
    ensures Merged(ld, Select(KeyTuples(rds, jk), rds, Lookups(ld, jk).value), order) ==
      Dicts(order, PairRows(ld, rds, jk, order))
  {
    var n := |rds| - 1;
    var init := rds[..n];
    var key := Lookups(ld, jk).value;
    var ks := KeyTuples(rds, jk);
    KeyTuplesLast(rds, jk);
    SelectLast(ks, rds, key);
    PairRowsLast(ld, rds, jk, order);
    var s0 := Select(KeyTuples(init, jk), init, key);
    var p0 := PairRows(ld, init, jk, order);
    if Lookups(rds[n], jk) == Lookups(ld, jk) {
      MergedMatchStep(ld, s0, p0, rds[n], order);
    } else {
      assert ks[n] != key;
    }
  }

  lemma {:induction false} MergedMatchStep(ld: RowDict, s0: seq<RowDict>, p0: seq<seq<Value>>, rd: RowDict, order: seq<string>)
    requires DistinctKeys(ld) && Merged(ld, s0, order) == Dicts(order, p0)
    ensures Merged(ld, s0 + [rd], order) == Dicts(order, p0 + [Cells(Update(ld, rd), order)])
  {
    MergedSnoc(ld, s0, rd, order);
    var cells := Cells(Update(ld, rd), order);
    DictsConcat(order, p0, [cells]);
    assert Dicts(order, [cells]) == [RowAsDict(order, cells)];
  }

  /** With the right dicts indexed by key tuple, the loop over the left
      rows yields the nested-loop inner join. */
  lemma {:induction false} JoinRowsInner(lcols: seq<string>, lrows: seq<seq<Value>>, rds: seq<RowDict>,
                                         jk: seq<string>, order: seq<string>)
    requires forall i :: 0 <= i < |lrows| ==> Lookups(RowAsDict(lcols, lrows[i]), jk).Ok?
    requires forall i :: 0 <= i < |rds| ==> Lookups(rds[i], jk).Ok?
    ensures JoinRows(lcols, lrows, Grouped(KeyTuples(rds, jk), rds), jk, Inner, NoDefault, order) ==
      Ok(Dicts(order, InnerRows(lcols, lrows, rds, jk, order)))
  {
    if lrows != [] {
      var n := |lrows| - 1;
      var init := lrows[..n];
      assert forall i :: 0 <= i < n ==> init[i] == lrows[i];
      JoinRowsInner(lcols, init, rds, jk, order);
      var index := Grouped(KeyTuples(rds, jk), rds);
      var acc := Dicts(order, InnerRows(lcols, init, rds, jk, order));
      var ld := RowAsDict(lcols, lrows[n]);
      var key := Lookups(ld, jk).value;
      var p := PairRows(ld, rds, jk, order);
      MergedSelect(ld, rds, jk, order);
      GroupedGet(KeyTuples(rds, jk), rds, key);
      DictsConcat(order, InnerRows(lcols, init, rds, jk, order), p);
      assert InnerRows(lcols, lrows, rds, jk, order) == InnerRows(lcols, init, rds, jk, order) + p;
      var sel := Select(KeyTuples(rds, jk), rds, key);
      if sel == [] {
        assert Get(index, key).None?;
        assert |Dicts(order, p)| == 0;
        assert p == [];
        assert acc + Dicts(order, p) == acc;
      } else {
        assert Get(index, key) == Some(sel);
      }
    }
  }

  /** With a `dict()` default, or under INNER, an unmatched left row adds
      nothing: the join is the same as INNER with a `None` default. */
  lemma {:induction false} JoinRowsDefault(lcols: seq<string>, lrows: seq<seq<Value>>, index: Index, jk: seq<string>,
                                           kind: JoinKind, dflt: Default, order: seq<string>)
    requires dflt == EmptyDict || kind == Inner
    ensures JoinRows(lcols, lrows, index, jk, kind, dflt, order) == JoinRows(lcols, lrows, index, jk, Inner, NoDefault, order)
  {
    if lrows != [] {
      JoinRowsDefault(lcols, lrows[..|lrows| - 1], index, jk, kind, dflt, order);
    }
  }

  /** `join_left` keeps no unmatched left row (the `dict()` default yields
      nothing to iterate), so it is the inner join. */
  lemma {:induction false} JoinLeftIsInner(l: Table, r: Table, joinKey: StrS, order: seq<string>)
    ensures JoinLeft(l, r, joinKey, order) == JoinInner(l, r, joinKey, order)
  {
    var jk := Listify(joinKey);
    var lt := Rename(l, SuffixRenamer(l.cols, jk, "_left"));
    var rt := Rename(r, SuffixRenamer(r.cols, jk, "_right"));
    var index := RightIndex(Dicts(rt.cols, rt.rows), jk);
    if index.Ok? {
      JoinRowsDefault(lt.cols, lt.rows, index.value, jk, LeftJoin, EmptyDict, order);
    }
  }

  /** A row of a table whose key columns survive the renaming has every
      key column. */
  lemma {:induction false} KeyColsKept(cols: seq<string>, jk: seq<string>, suffix: string, row: seq<Value>)
    requires |row| == |cols| && forall c :: c in jk ==> c in cols
    ensures Lookups(RowAsDict(Suffixed(cols, jk, suffix), row), jk).Ok?
  {
    var sc := Suffixed(cols, jk, suffix);
    forall i | 0 <= i < |jk| ensures Get(RowAsDict(sc, row), jk[i]).Some? {
      assert jk[i] in jk;
      assert jk[i] in cols;
      var p :| 0 <= p < |cols| && cols[p] == jk[i];
      assert sc[p] == jk[i];
      RowAsDictHas(sc, row, jk[i]);
    }
  }

  /** Every row of a table keeps the key columns under their own names. */
  lemma KeyColsKeptAll(t: Table, jk: seq<string>, suffix: string)
    requires Rectangular(t) && forall c :: c in jk ==> c in t.cols
    ensures forall i :: 0 <= i < |t.rows| ==> Lookups(RowAsDict(Suffixed(t.cols, jk, suffix), t.rows[i]), jk).Ok?
    ensures var ds := Dicts(Suffixed(t.cols, jk, suffix), t.rows);
      forall i :: 0 <= i < |ds| ==> Lookups(ds[i], jk).Ok?
  {
    forall i | 0 <= i < |t.rows| ensures Lookups(RowAsDict(Suffixed(t.cols, jk, suffix), t.rows[i]), jk).Ok? {
      KeyColsKept(t.cols, jk, suffix, t.rows[i]);
    }
  }

  /** `join_inner`: when both tables have the key columns, the result is
      the nested-loop inner join over the renamed columns, in the order
      given, and StopIteration when no pair matches. */
  lemma {:induction false} JoinInnerSpec(l: Table, r: Table, joinKey: StrS, order: seq<string>)
    requires Rectangular(l) && Rectangular(r) && DistinctCols(order)
    requires forall c :: c in Listify(joinKey) ==> c in l.cols && c in r.cols
    ensures var jk := Listify(joinKey);
      var rows := InnerRows(Suffixed(l.cols, jk, "_left"), l.rows,
                            Dicts(Suffixed(r.cols, jk, "_right"), r.rows), jk, order);
      JoinInner(l, r, joinKey, order) == if rows == [] then Err(StopIteration) else Ok(Table(order, rows))
  {
    var jk := Listify(joinKey);
    var lt := Rename(l, SuffixRenamer(l.cols, jk, "_left"));
    var rt := Rename(r, SuffixRenamer(r.cols, jk, "_right"));
    RenameSuffixed(l, jk, "_left");
    RenameSuffixed(r, jk, "_right");
    var lcols := Suffixed(l.cols, jk, "_left");
    var rcols := Suffixed(r.cols, jk, "_right");
    var rds := Dicts(rcols, r.rows);
    KeyColsKeptAll(r, jk, "_right");
    KeyColsKeptAll(l, jk, "_left");
    RightIndexGrouped(rds, jk);
    JoinRowsInner(lcols, l.rows, rds, jk, order);
    var rows := InnerRows(lcols, l.rows, rds, jk, order);
    assert JoinInner(l, r, joinKey, order) == FromDictList(Dicts(order, rows));
    if rows != [] {
      FromDictListDicts(Table(order, rows));
    }
  }

  // ----- join_cross -----

  /** `out` of `join_cross`: for each left dict in order, `left_row |
      right_row` for each right dict in order. */
  function CrossDicts(lds: seq<RowDict>, rds: seq<RowDict>): (r: seq<RowDict>)
    requires forall i :: 0 <= i < |lds| ==> DistinctKeys(lds[i])
    ensures |r| == |lds| * |rds|
  {
    if lds == [] then []
    else
      var n := |lds| - 1;
      assert |lds| * |rds| == n * |rds| + |rds|;
      CrossDicts(lds[..n], rds) + UpdateAll(lds[n], rds)
  }

  /** `for right_row in right_pool: out.append(left_row | right_row)`. */
  function UpdateAll(ld: RowDict, rds: seq<RowDict>): (r: seq<RowDict>)
    requires DistinctKeys(ld)
    ensures |r| == |rds| && forall j :: 0 <= j < |rds| ==> r[j] == Update(ld, rds[j])
  {
    seq(|rds|, j requires 0 <= j < |rds| => Update(ld, rds[j]))
  }

  /** `join_cross(right)`: every column of both sides renamed, then every
      pair of rows merged. */
  function JoinCross(l: Table, r: Table): (res: Result<Table, KErr>)
    ensures res == Err(StopIteration) <==> l.rows == [] || r.rows == []
    ensures res.Err? ==> res.error.KeyError? || res.error == StopIteration
    ensures res.Ok? ==> |res.value.rows| == |l.rows| * |r.rows|
  {
    var lt := Rename(l, SuffixRenamer(l.cols, [], "_left"));
    var rt := Rename(r, SuffixRenamer(r.cols, [], "_right"));
    FromDictList(CrossDicts(Dicts(lt.cols, lt.rows), Dicts(rt.cols, rt.rows)))
  }

  /** The rows of the cross product: each left row followed by each right
      row's cells, left-major. */
  function CrossRows(lrows: seq<seq<Value>>, rrows: seq<seq<Value>>): (r: seq<seq<Value>>)
    ensures r == [] <==> lrows == [] || rrows == []
  {
    if lrows == [] then []
    else
      var n := |lrows| - 1;
      CrossRows(lrows[..n], rrows) + Prepend(lrows[n], rrows)
  }

  /** Each right row with the left row's cells in front. */
  function Prepend(lr: seq<Value>, rrows: seq<seq<Value>>): (r: seq<seq<Value>>)
    ensures |r| == |rrows| && forall j :: 0 <= j < |rrows| ==> r[j] == lr + rrows[j]
  {
    seq(|rrows|, j requires 0 <= j < |rrows| => lr + rrows[j])
  }

  /** One row per pair. */
  lemma {:induction false} CrossRowsSize(lrows: seq<seq<Value>>, rrows: seq<seq<Value>>)
    ensures |CrossRows(lrows, rrows)| == |lrows| * |rrows|
  {
    if lrows != [] {
      var n := |lrows| - 1;
      CrossRowsSize(lrows[..n], rrows);
      assert |CrossRows(lrows, rrows)| == n * |rrows| + |rrows|;
    }
  }

  /** Row `i * |rrows| + j` of the cross product pairs left row `i` with
      right row `j`. */
  lemma {:induction false} CrossRowsAt(lrows: seq<seq<Value>>, rrows: seq<seq<Value>>, i: nat, j: nat)
    requires i < |lrows| && j < |rrows|
    ensures i * |rrows| + j < |CrossRows(lrows, rrows)|
    ensures CrossRows(lrows, rrows)[i * |rrows| + j] == lrows[i] + rrows[j]
  {
    var n := |lrows| - 1;
    var init := CrossRows(lrows[..n], rrows);
    var block := Prepend(lrows[n], rrows);
    assert CrossRows(lrows, rrows) == init + block;
    CrossRowsSize(lrows, rrows);
    CrossRowsSize(lrows[..n], rrows);
    if i < n {
      CrossRowsAt(lrows[..n], rrows, i, j);
      assert i * |rrows| + j < n * |rrows| by {
        MulStep(i, n, |rrows|, j);
      }
    } else {
      assert i == n;
      assert (init + block)[n * |rrows| + j] == block[j];
    }
  }

  lemma {:induction false} MulStep(i: nat, n: nat, m: nat, j: nat)
    requires i < n && j < m
    ensures i * m + j < n * m
  {
    assert (i + 1) * m <= n * m;
  }

  /** Every cross-product row has the width of a left row plus a right row. */
  lemma {:induction false} CrossRowsWidth(lrows: seq<seq<Value>>, rrows: seq<seq<Value>>, wl: nat, wr: nat)
    requires forall i :: 0 <= i < |lrows| ==> |lrows[i]| == wl
    requires forall j :: 0 <= j < |rrows| ==> |rrows[j]| == wr
    ensures forall k :: 0 <= k < |CrossRows(lrows, rrows)| ==> |CrossRows(lrows, rrows)[k]| == wl + wr
  {
    if lrows != [] {
      var n := |lrows| - 1;
      assert forall i :: 0 <= i < n ==> lrows[..n][i] == lrows[i];
      CrossRowsWidth(lrows[..n], rrows, wl, wr);
    }
  }

  /** Assigning fresh keys in order appends them. */
  lemma {:induction false} UpdateFresh(d: RowDict, rr: RowDict)
    requires DistinctKeys(d + rr)
    ensures DistinctKeys(d)
    ensures Update(d, rr) == d + rr
  {
    if rr == [] {
      assert d + rr == d;
    } else {
      var n := |rr| - 1;
      SnocFresh(d, rr);
      UpdateFresh(d, rr[..n]);
      PutFresh(d + rr[..n], rr[n].0, rr[n].1);
    }
  }

  lemma {:induction false} SnocFresh<K(!new), V>(d: Dict<K, V>, rr: Dict<K, V>)
    requires rr != [] && DistinctKeys(d + rr)
    ensures var n := |rr| - 1;
      DistinctKeys(d + rr[..n]) && Find(d + rr[..n], rr[n].0).None? && (d + rr[..n]) + [rr[n]] == d + rr
  {
    var n := |rr| - 1;
    assert (d + rr)[..|d| + n] == d + rr[..n];
    assert (d + rr)[|d| + n] == rr[n];
  }

  lemma {:induction false} ZipConcat(lc: seq<string>, lrow: seq<Value>, rc: seq<string>, rrow: seq<Value>)
    requires |lrow| == |lc| && |rrow| == |rc|
    ensures Zip(lc, lrow) + Zip(rc, rrow) == Zip(lc + rc, lrow + rrow)
  {
    var a := Zip(lc, lrow) + Zip(rc, rrow);
    var b := Zip(lc + rc, lrow + rrow);
    assert |a| == |b|;
    forall k | 0 <= k < |a| ensures a[k] == b[k] {
      if k < |lc| {
        assert (lc + rc)[k] == lc[k] && (lrow + rrow)[k] == lrow[k];
      } else {
        assert (lc + rc)[k] == rc[k - |lc|] && (lrow + rrow)[k] == rrow[k - |lc|];
      }
    }
  }

  lemma {:induction false} ZipDistinct(cols: seq<string>, row: seq<Value>)
    requires |row| == |cols| && DistinctCols(cols)
    ensures RowAsDict(cols, row) == Zip(cols, row)
  {
    FromPairsDistinct(Zip(cols, row));
  }

  /** Merging the dicts of two rows with disjoint names is the dict of the
      concatenated row. */
  lemma {:induction false} UpdateRowAsDict(lc: seq<string>, lrow: seq<Value>, rc: seq<string>, rrow: seq<Value>)
    requires |lrow| == |lc| && |rrow| == |rc| && DistinctCols(lc + rc)
    ensures Update(RowAsDict(lc, lrow), RowAsDict(rc, rrow)) == RowAsDict(lc + rc, lrow + rrow)
  {
    assert forall i :: 0 <= i < |lc| ==> (lc + rc)[i] == lc[i];
    assert forall i :: 0 <= i < |rc| ==> (lc + rc)[|lc| + i] == rc[i];
    ZipDistinct(lc, lrow);
    ZipDistinct(rc, rrow);
    ZipDistinct(lc + rc, lrow + rrow);
    ZipConcat(lc, lrow, rc, rrow);
    UpdateFresh(Zip(lc, lrow), Zip(rc, rrow));
  }

  /** The merged dicts of the cross join are the dicts of the cross-product
      rows. */
  lemma {:induction false} CrossDictsRows(lc: seq<string>, lrows: seq<seq<Value>>, rc: seq<string>, rrows: seq<seq<Value>>)
    requires forall i :: 0 <= i < |lrows| ==> |lrows[i]| == |lc|
    requires forall j :: 0 <= j < |rrows| ==> |rrows[j]| == |rc|
    requires DistinctCols(lc + rc)
    ensures CrossDicts(Dicts(lc, lrows), Dicts(rc, rrows)) == Dicts(lc + rc, CrossRows(lrows, rrows))
  {
    if lrows != [] {
      var n := |lrows| - 1;
      var lds := Dicts(lc, lrows);
      var rds := Dicts(rc, rrows);
      assert lds[..n] == Dicts(lc, lrows[..n]);
      assert forall i :: 0 <= i < n ==> lrows[..n][i] == lrows[i];
      CrossDictsRows(lc, lrows[..n], rc, rrows);
      DictsConcat(lc + rc, CrossRows(lrows[..n], rrows), Prepend(lrows[n], rrows));
      UpdateAllRows(lc, lrows[n], rc, rrows);
    }
  }

  lemma {:induction false} UpdateAllRows(lc: seq<string>, lrow: seq<Value>, rc: seq<string>, rrows: seq<seq<Value>>)
    requires |lrow| == |lc| && DistinctCols(lc + rc)
    requires forall j :: 0 <= j < |rrows| ==> |rrows[j]| == |rc|
    ensures UpdateAll(RowAsDict(lc, lrow), Dicts(rc, rrows)) == Dicts(lc + rc, Prepend(lrow, rrows))
  {
    var a := UpdateAll(RowAsDict(lc, lrow), Dicts(rc, rrows));
    var b := Dicts(lc + rc, Prepend(lrow, rrows));
    forall j | 0 <= j < |rrows| ensures a[j] == b[j] {
      UpdateRowAsDict(lc, lrow, rc, rrows[j]);
    }
  }

  lemma {:induction false} SuffixKeepsApart(a: string, b: string, suffix: string)
    requires a != b
    ensures a + suffix != b + suffix
  {
    assert (a + suffix)[..|a|] == a;
    assert (b + suffix)[..|b|] == b;
  }

  lemma {:induction false} LeftRightDiffer(a: string, b: string)
    ensures a + "_left" != b + "_right"
  {
    var x := a + "_left";
    var y := b + "_right";
    if |x| == |y| {
      assert x[|x| - 5] == '_';
      assert y[|y| - 5] == 'r';
    }
  }

  /** Renaming every column with `_left` and `_right` keeps distinct names
      distinct and the two sides apart. */
  lemma {:induction false} CrossColsDistinct(lcols: seq<string>, rcols: seq<string>)
    requires DistinctCols(lcols) && DistinctCols(rcols)
    ensures DistinctCols(Suffixed(lcols, [], "_left") + Suffixed(rcols, [], "_right"))
  {
    var c := Suffixed(lcols, [], "_left") + Suffixed(rcols, [], "_right");
    forall i, j | 0 <= i < j < |c| ensures c[i] != c[j] {
      CrossColsAt(lcols, rcols, i, j);
    }
  }

  /** One suffix on every name keeps distinct names apart. */
  lemma SuffixedApart(cols: seq<string>, suffix: string, i: nat, j: nat)
    requires DistinctCols(cols) && i < j < |cols|
    ensures Suffixed(cols, [], suffix)[i] != Suffixed(cols, [], suffix)[j]
  {
    SuffixKeepsApart(cols[i], cols[j], suffix);
  }

  lemma CrossColsAt(lcols: seq<string>, rcols: seq<string>, i: nat, j: nat)
    requires DistinctCols(lcols) && DistinctCols(rcols)
    requires i < j < |lcols| + |rcols|
    ensures var c := Suffixed(lcols, [], "_left") + Suffixed(rcols, [], "_right");
      |c| == |lcols| + |rcols| && c[i] != c[j]
  {
    var a := Suffixed(lcols, [], "_left");
    var b := Suffixed(rcols, [], "_right");
    if j < |a| {
      SuffixedApart(lcols, "_left", i, j);
      ConcatAt(a, b, i, j);
    } else if i >= |a| {
      SuffixedApart(rcols, "_right", i - |a|, j - |a|);
      ConcatAt(a, b, i, j);
    } else {
      LeftRightDiffer(lcols[i], rcols[j - |a|]);
      ConcatAt(a, b, i, j);
    }
  }

  /** Indexing into a concatenation. */
  lemma ConcatAt<T>(a: seq<T>, b: seq<T>, i: nat, j: nat)
    requires i < |a| + |b| && j < |a| + |b|
    ensures (a + b)[i] == if i < |a| then a[i] else b[i - |a|]
    ensures (a + b)[j] == if j < |a| then a[j] else b[j - |a|]
  {
  }

  /** `join_cross`: the columns are the left names with `_left` then the
      right names with `_right`, the rows are the cross product, and an
      empty product raises StopIteration. */
  lemma {:induction false} JoinCrossSpec(l: Table, r: Table)
    requires Rectangular(l) && Rectangular(r) && DistinctCols(l.cols) && DistinctCols(r.cols)
    ensures var cols := Suffixed(l.cols, [], "_left") + Suffixed(r.cols, [], "_right");
      JoinCross(l, r) ==
        if l.rows == [] || r.rows == [] then Err(StopIteration) else Ok(Table(cols, CrossRows(l.rows, r.rows)))
  {
    var cols := Suffixed(l.cols, [], "_left") + Suffixed(r.cols, [], "_right");
    JoinCrossDicts(l, r);
    var rows := CrossRows(l.rows, r.rows);
    if rows == [] {
      assert Dicts(cols, rows) == [];
    } else {
      CrossTable(l, r);
    }
  }

  lemma {:induction false} CrossTable(l: Table, r: Table)
    requires Rectangular(l) && Rectangular(r) && DistinctCols(l.cols) && DistinctCols(r.cols)
    requires CrossRows(l.rows, r.rows) != []
    ensures var cols := Suffixed(l.cols, [], "_left") + Suffixed(r.cols, [], "_right");
      FromDictList(Dicts(cols, CrossRows(l.rows, r.rows))) == Ok(Table(cols, CrossRows(l.rows, r.rows)))
  {
    var lc := Suffixed(l.cols, [], "_left");
    var rc := Suffixed(r.cols, [], "_right");
    var rows := CrossRows(l.rows, r.rows);
    CrossColsDistinct(l.cols, r.cols);
    CrossRowsWidth(l.rows, r.rows, |l.cols|, |r.cols|);
    assert |lc + rc| == |l.cols| + |r.cols|;
    FromDictListDicts(Table(lc + rc, rows));
  }

  lemma {:induction false} JoinCrossDicts(l: Table, r: Table)
    requires Rectangular(l) && Rectangular(r) && DistinctCols(l.cols) && DistinctCols(r.cols)
    ensures JoinCross(l, r) ==
      FromDictList(Dicts(Suffixed(l.cols, [], "_left") + Suffixed(r.cols, [], "_right"), CrossRows(l.rows, r.rows)))
  {
    RenameSuffixed(l, [], "_left");
    RenameSuffixed(r, [], "_right");
    CrossColsDistinct(l.cols, r.cols);
    CrossDictsRows(Suffixed(l.cols, [], "_left"), l.rows, Suffixed(r.cols, [], "_right"), r.rows);
  }

  // ----- the loops -----

  /** `for r in right.as_dicts(): right_dict[_join_key(r)].append(r)`. */
  method BuildIndex(rds: seq<RowDict>, jk: seq<string>) returns (res: Result<Index, KErr>)
    ensures res == RightIndex(rds, jk)
  {
    var index: Index := [];
    for i := 0 to |rds|
      invariant RightIndex(rds[..i], jk) == Ok(index)
    {
      assert rds[..i + 1][..i] == rds[..i];
      var key := Lookups(rds[i], jk);
      if key.Err? {
        RightIndexPrefixErr(rds, jk, i + 1);
        return Err(key.error);
      }
      index := AppendTo(index, key.value, rds[i]);
    }
    assert rds[..|rds|] == rds;
    res := Ok(index);
  }

  /** An error on a prefix of the right dicts is the outcome. */
  lemma {:induction false} RightIndexPrefixErr(rds: seq<RowDict>, jk: seq<string>, n: nat)
    requires n <= |rds| && RightIndex(rds[..n], jk).Err?
    ensures RightIndex(rds, jk) == RightIndex(rds[..n], jk)
    decreases |rds| - n
  {
    if n < |rds| {
      assert rds[..n + 1][..n] == rds[..n];
      RightIndexPrefixErr(rds, jk, n + 1);
    } else {
      assert rds[..n] == rds;
    }
  }

  /** `for rr in right_row: ... result.append({c: row.get(c) for c in cols})`. */
  method MergeRows(ld: RowDict, rrs: seq<RowDict>, order: seq<string>) returns (out: seq<RowDict>)
    requires DistinctKeys(ld)
    ensures out == Merged(ld, rrs, order)
  {
    out := [];
    for j := 0 to |rrs|
      invariant out == Merged(ld, rrs[..j], order)
    {
      assert rrs[..j + 1][..j] == rrs[..j];
      var row := Update(ld, rrs[j]);
      out := out + [RowAsDict(order, Cells(row, order))];
    }
    assert rrs[..|rrs|] == rrs;
  }

  /** `for left_row in left.as_dicts(): ...`, the body of `_join` after
      the index is built. */
  method JoinLoop(lcols: seq<string>, lrows: seq<seq<Value>>, index: Index, jk: seq<string>,
                  kind: JoinKind, dflt: Default, order: seq<string>) returns (res: Result<seq<RowDict>, KErr>)
    ensures res == JoinRows(lcols, lrows, index, jk, kind, dflt, order)
  {
    var result: seq<RowDict> := [];
    for i := 0 to |lrows|
      invariant JoinRows(lcols, lrows[..i], index, jk, kind, dflt, order) == Ok(result)
    {
      var ld := RowAsDict(lcols, lrows[i]);
      var key := Lookups(ld, jk);
      JoinRowsStep(lcols, lrows, index, jk, kind, dflt, order, i);
      if key.Err? {
        JoinRowsPrefixErr(lcols, lrows, index, jk, kind, dflt, order, i + 1);
        return Err(key.error);
      }
      var rightRow := Get(index, key.value);
      if rightRow.Some? {
        var merged := MergeRows(ld, rightRow.value, order);
        result := result + merged;
      } else if kind == LeftJoin && dflt == NoDefault {
        JoinRowsPrefixErr(lcols, lrows, index, jk, kind, dflt, order, i + 1);
        return Err(AssertionError);
      }
    }
    assert lrows[..|lrows|] == lrows;
    res := Ok(result);
  }

  /** One step of the loop over the left rows. */
  lemma {:induction false} JoinRowsStep(lcols: seq<string>, lrows: seq<seq<Value>>, index: Index, jk: seq<string>,
                                        kind: JoinKind, dflt: Default, order: seq<string>, i: nat)
    requires i < |lrows| && JoinRows(lcols, lrows[..i], index, jk, kind, dflt, order).Ok?
    ensures var acc := JoinRows(lcols, lrows[..i], index, jk, kind, dflt, order).value;
      var ld := RowAsDict(lcols, lrows[i]);
      JoinRows(lcols, lrows[..i + 1], index, jk, kind, dflt, order) ==
        match Lookups(ld, jk)
        case Err(e) => Err(e)
        case Ok(key) =>
          match Get(index, key)
          case Some(rrs) => Ok(acc + Merged(ld, rrs, order))
          case None => if dflt == EmptyDict || kind == Inner then Ok(acc) else Err(AssertionError)
  {
    assert lrows[..i + 1][..i] == lrows[..i];
    assert lrows[..i + 1][i] == lrows[i];
  }

  /** An error on a prefix of the left rows is the outcome. */
  lemma {:induction false} JoinRowsPrefixErr(lcols: seq<string>, lrows: seq<seq<Value>>, index: Index, jk: seq<string>,
                                             kind: JoinKind, dflt: Default, order: seq<string>, n: nat)
    requires n <= |lrows| && JoinRows(lcols, lrows[..n], index, jk, kind, dflt, order).Err?
    ensures JoinRows(lcols, lrows, index, jk, kind, dflt, order) == JoinRows(lcols, lrows[..n], index, jk, kind, dflt, order)
    decreases |lrows| - n
  {
    if n < |lrows| {
      assert lrows[..n + 1][..n] == lrows[..n];
      JoinRowsPrefixErr(lcols, lrows, index, jk, kind, dflt, order, n + 1);
    } else {
      assert lrows[..n] == lrows;
    }
  }

  /** `_join(left, right, join_key, kind, default)`. */
  method JoinTables(l: Table, r: Table, joinKey: StrS, kind: JoinKind, dflt: Default, order: seq<string>)
    returns (res: Result<Table, KErr>)
    ensures res == Join(l, r, joinKey, kind, dflt, order)
  {
    var jk := Listify(joinKey);
    var lt := Rename(l, SuffixRenamer(l.cols, jk, "_left"));
    var rt := Rename(r, SuffixRenamer(r.cols, jk, "_right"));
    var index := BuildIndex(Dicts(rt.cols, rt.rows), jk);
    if index.Err? {
      return Err(index.error);
    }
    var result := JoinLoop(lt.cols, lt.rows, index.value, jk, kind, dflt, order);
    if result.Err? {
      return Err(result.error);
    }
    res := FromDictList(result.value);
  }

  /** One more left dict adds its merges with every right dict. */
  lemma CrossDictsStep(lds: seq<RowDict>, rds: seq<RowDict>, i: nat)
    requires forall k :: 0 <= k < |lds| ==> DistinctKeys(lds[k])
    requires i < |lds|
    ensures CrossDicts(lds[..i + 1], rds) == CrossDicts(lds[..i], rds) + UpdateAll(lds[i], rds)
  {
    assert lds[..i + 1][..i] == lds[..i];
  }

  /** One more right dict adds one merge. */
  lemma UpdateAllStep(ld: RowDict, rds: seq<RowDict>, j: nat)
    requires DistinctKeys(ld) && j < |rds|
    ensures UpdateAll(ld, rds[..j + 1]) == UpdateAll(ld, rds[..j]) + [Update(ld, rds[j])]
  {
    assert rds[..j + 1] == rds[..j] + [rds[j]];
    UpdateAllSnoc(ld, rds[..j], rds[j]);
  }

  lemma UpdateAllSnoc(ld: RowDict, q: seq<RowDict>, d: RowDict)
    requires DistinctKeys(ld)
    ensures UpdateAll(ld, q + [d]) == UpdateAll(ld, q) + [Update(ld, d)]
  {
    var x, u := UpdateAll(ld, q + [d]), UpdateAll(ld, q);
    assert x[..|q|] == u;
    assert x == x[..|q|] + [x[|q|]];
  }

  method CrossLoop(lds: seq<RowDict>, rds: seq<RowDict>) returns (out: seq<RowDict>)
    requires forall i :: 0 <= i < |lds| ==> DistinctKeys(lds[i])
    ensures out == CrossDicts(lds, rds)
  {
    out := [];
    for i := 0 to |lds|
      invariant out == CrossDicts(lds[..i], rds)
    {
      CrossDictsStep(lds, rds, i);
      var done := out;
      for j := 0 to |rds|
        invariant out == done + UpdateAll(lds[i], rds[..j])
      {
        UpdateAllStep(lds[i], rds, j);
        AppendAssoc(done, UpdateAll(lds[i], rds[..j]), [Update(lds[i], rds[j])]);
        out := out + [Update(lds[i], rds[j])];
      }
      assert rds[..|rds|] == rds;
    }
    assert lds[..|lds|] == lds;
  }

  /** `join_cross(right)`. */
  method CrossJoin(l: Table, r: Table) returns (res: Result<Table, KErr>)
    ensures res == JoinCross(l, r)
  {
    var lt := Rename(l, SuffixRenamer(l.cols, [], "_left"));
    var rt := Rename(r, SuffixRenamer(r.cols, [], "_right"));
    var out := CrossLoop(Dicts(lt.cols, lt.rows), Dicts(rt.cols, rt.rows));
    res := FromDictList(out);
  }
}
