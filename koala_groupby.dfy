/** `group(by, aggs)` of koala.py: `_groupby` collects, for every result
    name, the aggregated column's values under each row's group key;
    `_agg` applies each aggregation to every group and lays the results out
    one row per key. An aggregation is given by what it computes on a
    group's list of values. */
module KoalaGroupBy {
  import opened Wrappers
  import opened PyDict
  import opened KoalaValues
  import opened KoalaGroups
  import opened KoalaTable

  /** `(result_name, aggregated_col, agg_func)`. */
  datatype Agg = Agg(name: string, col: string, f: seq<Value> -> Value)

  /** COUNT, `len`. */
  function Count(vs: seq<Value>): Value {
    Num(|vs| as real)
  }

  /** FIRST, `lambda x: x[0]` (a group is never empty). */
  function First(vs: seq<Value>): Value {
    if vs == [] then Null else vs[0]
  }

  function Names(aggs: seq<Agg>): (ns: seq<string>)
    ensures |ns| == |aggs| && forall j :: 0 <= j < |aggs| ==> ns[j] == aggs[j].name
  {
    if aggs == [] then [] else Names(aggs[..|aggs| - 1]) + [aggs[|aggs| - 1].name]
  }

  predicate DistinctNames(aggs: seq<Agg>) {
    forall i, j :: 0 <= i < j < |aggs| ==> aggs[i].name != aggs[j].name
  }

  /** `tuple(row[b] for b in bs)`: the first missing name raises. */
  function Lookups(d: RowDict, bs: seq<string>): (r: Result<seq<Value>, KErr>)
    ensures r.Ok? <==> forall i :: 0 <= i < |bs| ==> Get(d, bs[i]).Some?
    ensures r.Ok? ==> |r.value| == |bs| && forall i :: 0 <= i < |bs| ==> r.value[i] == Get(d, bs[i]).value
    ensures r.Err? ==> exists i :: 0 <= i < |bs| && Get(d, bs[i]).None? && r.error == KeyError(bs[i])
    ensures r.Err? ==> r.error.KeyError?
  {
    if bs == [] then Ok([])
    else match Get(d, bs[0])
      case None => Err(KeyError(bs[0]))
      case Some(v) =>
        var rest := bs[1..];
        assert forall i :: 0 <= i < |rest| ==> rest[i] == bs[i + 1];
        match Lookups(d, rest)
        case Err(e) => Err(e)
        case Ok(vs) =>
          var r := [v] + vs;
          assert forall i :: 0 <= i < |bs| ==> Get(d, bs[i]).Some? && r[i] == Get(d, bs[i]).value by {
            forall i | 0 <= i < |bs| ensures Get(d, bs[i]).Some? && r[i] == Get(d, bs[i]).value {
              if i > 0 { assert bs[i] == rest[i - 1] && r[i] == vs[i - 1]; }
            }
          }
          Ok(r)
  }

  /** `_get_group_key(by, row)`: the cell for one name, a tuple for a list. */
  function GroupKey(keyCols: StrS, d: RowDict): (r: Result<Value, KErr>)
    ensures r.Ok? <==> forall b :: b in Listify(keyCols) ==> Get(d, b).Some?
    ensures r.Ok? && keyCols.One? ==> r.value == Get(d, keyCols.name).value
    ensures r.Ok? && keyCols.Many? ==> r.value == Tup(Lookups(d, keyCols.names).value)
    ensures r.Err? ==> exists b :: b in Listify(keyCols) && Get(d, b).None? && r.error == KeyError(b)
  {
    match keyCols
    case One(b) => if Get(d, b).Some? then Ok(Get(d, b).value) else Err(KeyError(b))
    case Many(bs) =>
      var vs :- Lookups(d, bs);
      Ok(Tup(vs))
  }

  // ----- _groupby -----

  /** One `defaultdict(list)`: group key to the values collected for it. */
  type Group = Dict<Value, seq<Value>>

  /** `groups`: result name to its group dict. */
  type Groups = Dict<string, Group>

  /** The group dict of a result name, empty before its first value.
      Every group dict is built by `AppendTo` and so has distinct keys; one
      that did not would be read as empty. */
  function GroupOf(g: Groups, name: string): (r: Group)
    ensures DistinctKeys(r)
    ensures DistinctKeys(GetOr(g, name, [])) ==> r == GetOr(g, name, [])
  {
    var r := GetOr(g, name, []);
    if DistinctKeys(r) then r else []
  }

  /** The inner loop of `_groupby` for one row: for each aggregation,
      `groups[result_name][key].append(row[aggregated_col])`. */
  function RowIntoGroups(g: Groups, key: Value, d: RowDict, aggs: seq<Agg>): (r: Result<Groups, KErr>)
    requires DistinctKeys(g)
    ensures r.Ok? ==> DistinctKeys(r.value)
    ensures r.Err? ==> exists j :: 0 <= j < |aggs| && Get(d, aggs[j].col).None? && r.error == KeyError(aggs[j].col)
  {
    if aggs == [] then Ok(g)
    else
      var g1 :- RowIntoGroups(g, key, d, aggs[..|aggs| - 1]);
      var a := aggs[|aggs| - 1];
      match Get(d, a.col)
      case None => Err(KeyError(a.col))
      case Some(v) => Ok(Put(g1, a.name, AppendTo(GroupOf(g1, a.name), key, v)))
  }

  /** `_groupby(by, aggs)` over the rows' dicts. */
  function GroupsSpec(ds: seq<RowDict>, keyCols: StrS, aggs: seq<Agg>): (r: Result<Groups, KErr>)
    ensures r.Ok? ==> DistinctKeys(r.value)
    ensures r.Err? ==> r.error.KeyError?
  {
    if ds == [] then Ok([])
    else
      var g :- GroupsSpec(ds[..|ds| - 1], keyCols, aggs);
      var key :- GroupKey(keyCols, ds[|ds| - 1]);
      RowIntoGroups(g, key, ds[|ds| - 1], aggs)
  }

  // ----- _agg -----

  /** The `rows` dict of `_agg`: `groups[result_name]` raises KeyError for
      a result name never filled in. */
  function AggRows(aggs: seq<Agg>, groups: Groups): (r: Result<Group, KErr>)
    ensures r.Ok? ==> DistinctKeys(r.value)
    ensures r.Err? ==> exists j :: 0 <= j < |aggs| && r.error == KeyError(aggs[j].name)
  {
    if aggs == [] then Ok([])
    else
      var rows :- AggRows(aggs[..|aggs| - 1], groups);
      var a := aggs[|aggs| - 1];
      match Get(groups, a.name)
      case None => Err(KeyError(a.name))
      case Some(group) => Ok(ApplyItems(rows, group, a.f))
  }

  /** `_flatten(cols)`: `by` (flattened when a list) and the result names,
      or nothing when there are no aggregations. */
  function AggCols(keyCols: StrS, aggs: seq<Agg>): (r: seq<string>)
    ensures |r| == if aggs == [] then 0 else |Listify(keyCols)| + |aggs|
  {
    if aggs == [] then [] else Listify(keyCols) + Names(aggs)
  }

  /** `_flatten([k] + values)` for each entry of the rows dict. */
  function FlatRows(rows: Group): (r: seq<seq<Value>>)
    ensures |r| == |rows| && forall i :: 0 <= i < |rows| ==> r[i] == Flattened([rows[i].0] + rows[i].1)
  {
    if rows == [] then []
    else FlatRows(rows[..|rows| - 1]) + [Flattened([rows[|rows| - 1].0] + rows[|rows| - 1].1)]
  }

  /** `group(by, aggs)`: the new table, each row `[k] + values` flattened. */
  function GroupSpec(t: Table, keyCols: StrS, aggs: seq<Agg>): (r: Result<Table, KErr>)
    ensures r.Ok? ==> r.value.cols == AggCols(keyCols, aggs)
  {
    var groups :- GroupsSpec(Dicts(t.cols, t.rows), keyCols, aggs);
    var rows :- AggRows(aggs, groups);
    Ok(Table(AggCols(keyCols, aggs), FlatRows(rows)))
  }

  // ----- what group computes -----

  /** Every row has a group key and every aggregated column. */
  predicate Groupable(ds: seq<RowDict>, keyCols: StrS, aggs: seq<Agg>) {
    (forall i :: 0 <= i < |ds| ==> GroupKey(keyCols, ds[i]).Ok?) &&
    (forall i, j :: 0 <= i < |ds| && 0 <= j < |aggs| ==> Get(ds[i], aggs[j].col).Some?)
  }

  /** The rows' group keys. */
  function KeysOf(keyCols: StrS, ds: seq<RowDict>): (ks: seq<Value>)
    requires forall i :: 0 <= i < |ds| ==> GroupKey(keyCols, ds[i]).Ok?
    ensures |ks| == |ds|
  {
    if ds == [] then [] else KeysOf(keyCols, ds[..|ds| - 1]) + [GroupKey(keyCols, ds[|ds| - 1]).value]
  }

  lemma {:induction false} KeysOfAt(keyCols: StrS, ds: seq<RowDict>, i: nat)
    requires forall i :: 0 <= i < |ds| ==> GroupKey(keyCols, ds[i]).Ok?
    requires i < |ds|
    ensures KeysOf(keyCols, ds)[i] == GroupKey(keyCols, ds[i]).value
  {
    if i < |ds| - 1 {
      KeysOfAt(keyCols, ds[..|ds| - 1], i);
    }
  }

  /** The rows' values in one column. */
  function ValsOf(col: string, ds: seq<RowDict>): (vs: seq<Value>)
    requires forall i :: 0 <= i < |ds| ==> Get(ds[i], col).Some?
    ensures |vs| == |ds|
  {
    if ds == [] then [] else ValsOf(col, ds[..|ds| - 1]) + [Get(ds[|ds| - 1], col).value]
  }

  lemma {:induction false} ValsOfAt(col: string, ds: seq<RowDict>, i: nat)
    requires forall i :: 0 <= i < |ds| ==> Get(ds[i], col).Some?
    requires i < |ds|
    ensures ValsOf(col, ds)[i] == Get(ds[i], col).value
  {
    if i < |ds| - 1 {
      ValsOfAt(col, ds[..|ds| - 1], i);
    }
  }

  /** Each aggregation's column, as the rows' values in it. */
  function ColumnsOf(aggs: seq<Agg>, ds: seq<RowDict>): (cols: seq<seq<Value>>)
    requires forall i, j :: 0 <= i < |ds| && 0 <= j < |aggs| ==> Get(ds[i], aggs[j].col).Some?
    ensures |cols| == |aggs| && forall j :: 0 <= j < |aggs| ==> |cols[j]| == |ds|
  {
    if aggs == [] then [] else ColumnsOf(aggs[..|aggs| - 1], ds) + [ValsOf(aggs[|aggs| - 1].col, ds)]
  }

  lemma {:induction false} ColumnsOfAt(aggs: seq<Agg>, ds: seq<RowDict>, j: nat)
    requires forall i, j :: 0 <= i < |ds| && 0 <= j < |aggs| ==> Get(ds[i], aggs[j].col).Some?
    requires j < |aggs|
    ensures ColumnsOf(aggs, ds)[j] == ValsOf(aggs[j].col, ds)
  {
    if j < |aggs| - 1 {
      ColumnsOfAt(aggs[..|aggs| - 1], ds, j);
    }
  }

  /** Every column holds one value per key. */
  predicate Aligned(aggs: seq<Agg>, keys: seq<Value>, cols: seq<seq<Value>>) {
    |cols| == |aggs| && forall j :: 0 <= j < |cols| ==> |cols[j]| == |keys|
  }

  /** The aggregates of key `k`: each aggregation applied to the values of
      its column in the rows with that key, in input order. */
  function AggValues(aggs: seq<Agg>, keys: seq<Value>, cols: seq<seq<Value>>, k: Value): (r: seq<Value>)
    requires Aligned(aggs, keys, cols)
    ensures |r| == |aggs|
  {
    if aggs == [] then []
    else
      var n := |aggs| - 1;
      AggValues(aggs[..n], keys, cols[..n], k) + [aggs[n].f(Select(keys, cols[n], k))]
  }

  lemma {:induction false} AggValuesAt(aggs: seq<Agg>, keys: seq<Value>, cols: seq<seq<Value>>, k: Value, j: nat)
    requires Aligned(aggs, keys, cols) && j < |aggs|
    ensures AggValues(aggs, keys, cols, k)[j] == aggs[j].f(Select(keys, cols[j], k))
  {
    var n := |aggs| - 1;
    if j < n {
      assert Aligned(aggs[..n], keys, cols[..n]);
      AggValuesAt(aggs[..n], keys, cols[..n], k, j);
    }
  }

  /** One row leaves the group dicts of result names it does not feed
      unchanged. */
  lemma {:induction false} RowIntoGroupsOther(g: Groups, key: Value, d: RowDict, aggs: seq<Agg>, n: string)
    requires DistinctKeys(g)
    requires forall j :: 0 <= j < |aggs| ==> Get(d, aggs[j].col).Some? && aggs[j].name != n
    ensures RowIntoGroups(g, key, d, aggs).Ok?
    ensures Get(RowIntoGroups(g, key, d, aggs).value, n) == Get(g, n)
  {
    if aggs != [] {
      var init := aggs[..|aggs| - 1];
      assert forall j :: 0 <= j < |init| ==> init[j] == aggs[j];
      RowIntoGroupsOther(g, key, d, init, n);
    }
  }

  /** One row goes into each aggregation's group dict, under its key. */
  lemma {:induction false} RowIntoGroupsName(g: Groups, key: Value, d: RowDict, aggs: seq<Agg>, j: nat)
    requires DistinctKeys(g) && DistinctNames(aggs) && j < |aggs|
    requires forall j' :: 0 <= j' < |aggs| ==> Get(d, aggs[j'].col).Some?
    ensures RowIntoGroups(g, key, d, aggs).Ok?
    ensures Get(RowIntoGroups(g, key, d, aggs).value, aggs[j].name) ==
            Some(AppendTo(GroupOf(g, aggs[j].name), key, Get(d, aggs[j].col).value))
  {
    var init := aggs[..|aggs| - 1];
    var a := aggs[|aggs| - 1];
    assert forall i :: 0 <= i < |init| ==> init[i] == aggs[i];
    if j == |aggs| - 1 {
      RowIntoGroupsOther(g, key, d, init, a.name);
      var g1 := RowIntoGroups(g, key, d, init).value;
      assert GroupOf(g1, a.name) == GroupOf(g, a.name);
      RowIntoGroupsSnoc(g, key, d, aggs);
    } else {
      RowIntoGroupsName(g, key, d, init, j);
      RowIntoGroupsSnoc(g, key, d, aggs);
      assert aggs[j].name != a.name;
    }
  }

  /** One more aggregation is one more append, into its result name's
      group dict. */
  lemma {:induction false} RowIntoGroupsSnoc(g: Groups, key: Value, d: RowDict, aggs: seq<Agg>)
    requires DistinctKeys(g) && aggs != []
    requires RowIntoGroups(g, key, d, aggs[..|aggs| - 1]).Ok?
    requires Get(d, aggs[|aggs| - 1].col).Some?
    ensures var g1 := RowIntoGroups(g, key, d, aggs[..|aggs| - 1]).value;
      var a := aggs[|aggs| - 1];
      RowIntoGroups(g, key, d, aggs) == Ok(Put(g1, a.name, AppendTo(GroupOf(g1, a.name), key, Get(d, a.col).value)))
  {
  }

  /** Each result name's group dict is the grouping of its column's values
      by the rows' keys. */
  lemma {:induction false} GroupsSpecGet(ds: seq<RowDict>, keyCols: StrS, aggs: seq<Agg>, j: nat)
    requires Groupable(ds, keyCols, aggs) && DistinctNames(aggs) && j < |aggs|
    ensures GroupsSpec(ds, keyCols, aggs).Ok?
    ensures var g := GroupsSpec(ds, keyCols, aggs).value;
      GroupOf(g, aggs[j].name) == Grouped(KeysOf(keyCols, ds), ValsOf(aggs[j].col, ds)) &&
      (ds != [] ==> Get(g, aggs[j].name) == Some(Grouped(KeysOf(keyCols, ds), ValsOf(aggs[j].col, ds))))
  {
    if ds != [] {
      var init := ds[..|ds| - 1];
      var d := ds[|ds| - 1];
      assert Groupable(init, keyCols, aggs) by {
        forall i | 0 <= i < |init| ensures init[i] == ds[i] { }
      }
      GroupsSpecGet(init, keyCols, aggs, j);
      var g0 := GroupsSpec(init, keyCols, aggs).value;
      var key := GroupKey(keyCols, d).value;
      assert forall j' :: 0 <= j' < |aggs| ==> Get(d, aggs[j'].col).Some?;
      RowIntoGroupsName(g0, key, d, aggs, j);
      GroupsSpecSnoc(ds, keyCols, aggs);
      GroupedRowsSnoc(keyCols, aggs[j].col, ds);
    }
  }

  lemma {:induction false} GroupsSpecSnoc(ds: seq<RowDict>, keyCols: StrS, aggs: seq<Agg>)
    requires ds != [] && GroupsSpec(ds[..|ds| - 1], keyCols, aggs).Ok?
    requires GroupKey(keyCols, ds[|ds| - 1]).Ok?
    ensures GroupsSpec(ds, keyCols, aggs) ==
            RowIntoGroups(GroupsSpec(ds[..|ds| - 1], keyCols, aggs).value, GroupKey(keyCols, ds[|ds| - 1]).value, ds[|ds| - 1], aggs)
  {
  }

  /** One more row appends its value under its key. */
  lemma {:induction false} GroupedRowsSnoc(keyCols: StrS, col: string, ds: seq<RowDict>)
    requires ds != []
    requires forall i :: 0 <= i < |ds| ==> GroupKey(keyCols, ds[i]).Ok? && Get(ds[i], col).Some?
    ensures var init := ds[..|ds| - 1];
            var last := ds[|ds| - 1];
            Grouped(KeysOf(keyCols, ds), ValsOf(col, ds)) ==
            AppendTo(Grouped(KeysOf(keyCols, init), ValsOf(col, init)), GroupKey(keyCols, last).value, Get(last, col).value)
  {
    var ks := KeysOf(keyCols, ds);
    var vs := ValsOf(col, ds);
    assert ks[..|ks| - 1] == KeysOf(keyCols, ds[..|ds| - 1]);
    assert vs[..|vs| - 1] == ValsOf(col, ds[..|ds| - 1]);
  }

  /** `_groupby` over some rows fills in the group dict of every result
      name. */
  lemma {:induction false} GroupsSpecFor(ds: seq<RowDict>, keyCols: StrS, aggs: seq<Agg>)
    requires ds != [] && aggs != [] && Groupable(ds, keyCols, aggs) && DistinctNames(aggs)
    ensures GroupsSpec(ds, keyCols, aggs).Ok?
    ensures GroupsFor(aggs, GroupsSpec(ds, keyCols, aggs).value, KeysOf(keyCols, ds), ColumnsOf(aggs, ds))
  {
    var keys := KeysOf(keyCols, ds);
    var cols := ColumnsOf(aggs, ds);
    GroupsSpecGet(ds, keyCols, aggs, 0);
    var groups := GroupsSpec(ds, keyCols, aggs).value;
    forall j | 0 <= j < |aggs| ensures Get(groups, aggs[j].name) == Some(Grouped(keys, cols[j])) {
      GroupsSpecGet(ds, keyCols, aggs, j);
      ColumnsOfAt(aggs, ds, j);
    }
  }

  /** The groups `_agg` reads: each result name's group dict is the
      grouping of its column's values by the keys. */
  predicate GroupsFor(aggs: seq<Agg>, groups: Groups, keys: seq<Value>, cols: seq<seq<Value>>)
    requires Aligned(aggs, keys, cols)
  {
    forall j :: 0 <= j < |aggs| ==> Get(groups, aggs[j].name) == Some(Grouped(keys, cols[j]))
  }

  /** The rows dict of `_agg`: one entry per distinct key, in order of
      first appearance, holding the aggregates of that key. */
  lemma {:induction false} AggRowsEntries(aggs: seq<Agg>, groups: Groups, keys: seq<Value>, cols: seq<seq<Value>>)
    requires Aligned(aggs, keys, cols) && GroupsFor(aggs, groups, keys, cols)
    ensures AggRows(aggs, groups).Ok?
    ensures aggs != [] ==> |AggRows(aggs, groups).value| == |FirstSeen(keys)|
    ensures aggs != [] ==> forall i :: 0 <= i < |FirstSeen(keys)| ==>
      AggRows(aggs, groups).value[i] == (FirstSeen(keys)[i], AggValues(aggs, keys, cols, FirstSeen(keys)[i]))
  {
    if aggs != [] {
      var n := |aggs| - 1;
      var init := aggs[..n];
      var a := aggs[n];
      var vs := cols[n];
      assert Aligned(init, keys, cols[..n]) && GroupsFor(init, groups, keys, cols[..n]) by {
        assert forall j :: 0 <= j < n ==> init[j] == aggs[j] && cols[..n][j] == cols[j];
      }
      AggRowsEntries(init, groups, keys, cols[..n]);
      var r0 := AggRows(init, groups).value;
      assert Get(groups, a.name) == Some(Grouped(keys, vs));
      var r := AggRows(aggs, groups).value;
      assert r == ApplyItems(r0, Grouped(keys, vs), a.f);
      var firsts := FirstSeen(keys);
      if firsts != [] {
        if n == 0 {
          ApplyGroupedFresh(keys, vs, a.f, 0);
        } else {
          ApplyGroupedAligned(r0, keys, vs, a.f, 0);
        }
      } else {
        GroupedKeys(keys, vs);
      }
      forall i | 0 <= i < |firsts| ensures r[i] == (firsts[i], AggValues(aggs, keys, cols, firsts[i])) {
        var k := firsts[i];
        var x := a.f(Select(keys, vs, k));
        assert AggValues(aggs, keys, cols, k) == AggValues(init, keys, cols[..n], k) + [x];
        if n == 0 {
          ApplyGroupedFresh(keys, vs, a.f, i);
          assert r[i] == (k, [x]);
          assert AggValues(init, keys, cols[..n], k) == [];
          assert [] + [x] == [x];
        } else {
          ApplyGroupedAligned(r0, keys, vs, a.f, i);
          assert r[i] == (r0[i].0, r0[i].1 + [a.f(Select(keys, vs, r0[i].0))]);
          assert r0[i] == (k, AggValues(init, keys, cols[..n], k));
        }
      }
    }
  }

  /** `group(by, aggs)` on a table with rows, distinct result names and all
      the columns it uses: the columns are the key columns and the result
      names; there is one row per distinct key, in order of first
      appearance, holding the key and each aggregation of that key's values
      in input order, flattened. */
  lemma {:induction false} GroupRows(t: Table, keyCols: StrS, aggs: seq<Agg>)
    requires t.rows != [] && aggs != [] && DistinctNames(aggs)
    requires Groupable(Dicts(t.cols, t.rows), keyCols, aggs)
    ensures GroupSpec(t, keyCols, aggs).Ok?
    ensures var r := GroupSpec(t, keyCols, aggs).value;
      var ds := Dicts(t.cols, t.rows);
      var keys := KeysOf(keyCols, ds);
      var firsts := FirstSeen(keys);
      r.cols == Listify(keyCols) + Names(aggs) && |r.rows| == |firsts| &&
      var cols := ColumnsOf(aggs, ds);
      forall i :: 0 <= i < |firsts| ==> r.rows[i] == Flattened([firsts[i]] + AggValues(aggs, keys, cols, firsts[i]))
  {
    var ds := Dicts(t.cols, t.rows);
    var keys := KeysOf(keyCols, ds);
    var cols := ColumnsOf(aggs, ds);
    GroupsSpecFor(ds, keyCols, aggs);
    var groups := GroupsSpec(ds, keyCols, aggs).value;
    AggRowsEntries(aggs, groups, keys, cols);
    var rows := AggRows(aggs, groups).value;
    var firsts := FirstSeen(keys);
    var r := GroupSpec(t, keyCols, aggs).value;
    assert r.rows == FlatRows(rows);
    assert |rows| == |firsts|;
    forall i | 0 <= i < |firsts| ensures r.rows[i] == Flattened([firsts[i]] + AggValues(aggs, keys, cols, firsts[i])) {
      assert rows[i] == (firsts[i], AggValues(aggs, keys, cols, firsts[i]));
    }
  }

  /** The grouped table need not be rectangular: a key cell holding a
      tuple is flattened into several cells under the one key name. */
  lemma {:induction false} GroupTupleKeyWidens(k: string, c: string, n: string, a: real, b: real, x: real)
    requires k != c
    ensures var t := Table([k, c], [[Tup([Num(a), Num(b)]), Num(x)]]);
      var g := GroupSpec(t, One(k), [Agg(n, c, First)]);
      g.Ok? && g.value.cols == [k, n] && g.value.rows == [[Num(a), Num(b), Num(x)]] &&
      !Rectangular(g.value)
  {
    GroupSingleRow(k, c, n, Tup([Num(a), Num(b)]), Num(x));
    FlattenedTupleKey(a, b, x);
  }

  /** One row grouped by its key with `first` of the other column: a single
      row holding the key and the value, flattened. */
  lemma {:induction false} GroupSingleRow(k: string, c: string, n: string, key: Value, v: Value)
    requires k != c
    ensures GroupSpec(Table([k, c], [[key, v]]), One(k), [Agg(n, c, First)]) ==
            Ok(Table([k, n], [Flattened([key, v])]))
  {
    var t := Table([k, c], [[key, v]]);
    var aggs := [Agg(n, c, First)];
    var g := GroupSpec(t, One(k), aggs);
    assert g.Ok? && g.value.cols == Listify(One(k)) + Names(aggs) && |g.value.rows| == 1 &&
           g.value.rows[0] == Flattened([key] + AggValues(aggs, [key], [[v]], key)) by {
      SingleRowColumns(k, c, n, key, v);
      SingleKeyAgg(n, c, key, v);
      GroupRows(t, One(k), aggs);
    }
    SingleKeyAgg(n, c, key, v);
    assert Names(aggs) == [n];
    assert [key] + [v] == [key, v];
    assert g.value.rows == [Flattened([key, v])];
    assert Listify(One(k)) == [k];
    assert g.value == Table([k, n], [Flattened([key, v])]);
  }

  /** One key with one value: `first` of that value. */
  lemma {:induction false} SingleKeyAgg(n: string, c: string, key: Value, v: Value)
    ensures FirstSeen([key]) == [key]
    ensures AggValues([Agg(n, c, First)], [key], [[v]], key) == [v]
  {
    var aggs, keys, cols := [Agg(n, c, First)], [key], [[v]];
    assert keys[..0] == [] && cols[0][..0] == [];
    assert FirstSeen(keys) == [key];
    AggValuesAt(aggs, keys, cols, key, 0);
    assert Select(keys, cols[0], key) == [v];
  }

  /** The single row's key and aggregated column. */
  lemma {:induction false} SingleRowColumns(k: string, c: string, n: string, key: Value, v: Value)
    requires k != c
    ensures Groupable(Dicts([k, c], [[key, v]]), One(k), [Agg(n, c, First)])
    ensures KeysOf(One(k), Dicts([k, c], [[key, v]])) == [key]
    ensures ColumnsOf([Agg(n, c, First)], Dicts([k, c], [[key, v]])) == [[v]]
  {
    var cols, row := [k, c], [key, v];
    var aggs := [Agg(n, c, First)];
    var ds := Dicts(cols, [row]);
    RowAsDictLookup(cols, row, 0);
    RowAsDictLookup(cols, row, 1);
    assert Get(ds[0], k) == Some(key);
    assert Get(ds[0], c) == Some(v);
    assert Groupable(ds, One(k), aggs);
    assert ds[..0] == [] && aggs[..0] == [];
    assert GroupKey(One(k), ds[0]) == Ok(key);
    assert KeysOf(One(k), ds) == KeysOf(One(k), []) + [key];
    assert ValsOf(c, ds) == [v];
    assert ColumnsOf(aggs, ds) == ColumnsOf([], ds) + [ValsOf(c, ds)] == [[v]];
  }

  lemma {:induction false} FlattenedTupleKey(a: real, b: real, x: real)
    ensures Flattened([Tup([Num(a), Num(b)]), Num(x)]) == [Num(a), Num(b), Num(x)]
  {
    var s := [Tup([Num(a), Num(b)]), Num(x)];
    assert s[..1] == [Tup([Num(a), Num(b)])];
    assert [Tup([Num(a), Num(b)])][..0] == [];
    FlattenedFlat([Num(a), Num(b)]);
  }

  /** With no rows, `_agg` looks up the first result name in an empty
      `groups` and raises KeyError. */
  lemma {:induction false} GroupNoRows(t: Table, keyCols: StrS, aggs: seq<Agg>)
    requires t.rows == [] && aggs != []
    ensures GroupSpec(t, keyCols, aggs) == Err(KeyError(aggs[0].name))
  {
    assert Dicts(t.cols, t.rows) == [];
    AggRowsMissing(aggs, []);
  }

  /** A first result name with no group dict makes `_agg` raise KeyError. */
  lemma {:induction false} AggRowsMissing(aggs: seq<Agg>, groups: Groups)
    requires aggs != [] && Get(groups, aggs[0].name).None?
    ensures AggRows(aggs, groups) == Err(KeyError(aggs[0].name))
  {
    if |aggs| > 1 {
      var init := aggs[..|aggs| - 1];
      AggRowsMissing(init, groups);
    }
  }

  /** With no aggregations, a successful `group` leaves an empty table. */
  lemma {:induction false} GroupNoAggs(t: Table, keyCols: StrS)
    requires GroupSpec(t, keyCols, []).Ok?
    ensures GroupSpec(t, keyCols, []).value == Table([], [])
  {
  }

  // ----- the loops -----

  /** The inner loop of `_groupby`, over the aggregations for one row. */
  method AddRow(g: Groups, key: Value, row: RowDict, aggs: seq<Agg>) returns (res: Result<Groups, KErr>)
    requires DistinctKeys(g)
    ensures res == RowIntoGroups(g, key, row, aggs)
  {
    var groups := g;
    for j := 0 to |aggs|
      invariant RowIntoGroups(g, key, row, aggs[..j]) == Ok(groups)
    {
      RowIntoGroupsStep(g, key, row, aggs, j, groups);
      var agg := aggs[j];
      var v := Get(row, agg.col);
      if v.None? {
        RowIntoGroupsPrefixErr(g, key, row, aggs, j + 1);
        return Err(KeyError(agg.col));
      }
      groups := Put(groups, agg.name, AppendTo(GroupOf(groups, agg.name), key, v.value));
    }
    assert aggs[..|aggs|] == aggs;
    res := Ok(groups);
  }

  /** `_groupby(by, aggs)`. */
  method GroupBy(ds: seq<RowDict>, keyCols: StrS, aggs: seq<Agg>) returns (res: Result<Groups, KErr>)
    ensures res == GroupsSpec(ds, keyCols, aggs)
  {
    var groups: Groups := [];
    for i := 0 to |ds|
      invariant GroupsSpec(ds[..i], keyCols, aggs) == Ok(groups)
    {
      assert ds[..i + 1][..i] == ds[..i];
      var key := GroupKey(keyCols, ds[i]);
      if key.Err? {
        GroupsPrefixErr(ds, keyCols, aggs, i + 1);
        return Err(key.error);
      }
      var next := AddRow(groups, key.value, ds[i], aggs);
      if next.Err? {
        GroupsPrefixErr(ds, keyCols, aggs, i + 1);
        return next;
      }
      groups := next.value;
    }
    assert ds[..|ds|] == ds;
    res := Ok(groups);
  }

  /** An error on a prefix of the rows is the outcome. */
  lemma {:induction false} GroupsPrefixErr(ds: seq<RowDict>, keyCols: StrS, aggs: seq<Agg>, n: nat)
    requires n <= |ds| && GroupsSpec(ds[..n], keyCols, aggs).Err?
    ensures GroupsSpec(ds, keyCols, aggs) == GroupsSpec(ds[..n], keyCols, aggs)
    decreases |ds| - n
  {
    if n < |ds| {
      assert ds[..n + 1][..n] == ds[..n];
      GroupsPrefixErr(ds, keyCols, aggs, n + 1);
    } else {
      assert ds[..n] == ds;
    }
  }

  /** One more aggregation appends the row's value to its group, or fails
      on a missing column. */
  lemma RowIntoGroupsStep(g: Groups, key: Value, d: RowDict, aggs: seq<Agg>, j: nat, g1: Groups)
    requires DistinctKeys(g) && j < |aggs| && RowIntoGroups(g, key, d, aggs[..j]) == Ok(g1)
    ensures Get(d, aggs[j].col).None? ==> RowIntoGroups(g, key, d, aggs[..j + 1]) == Err(KeyError(aggs[j].col))
    ensures Get(d, aggs[j].col).Some? ==>
      RowIntoGroups(g, key, d, aggs[..j + 1]) ==
      Ok(Put(g1, aggs[j].name, AppendTo(GroupOf(g1, aggs[j].name), key, Get(d, aggs[j].col).value)))
  {
    assert aggs[..j + 1][..j] == aggs[..j];
  }

  /** An error on a prefix of the aggregations is the outcome. */
  lemma {:induction false} RowIntoGroupsPrefixErr(g: Groups, key: Value, d: RowDict, aggs: seq<Agg>, n: nat)
    requires DistinctKeys(g) && n <= |aggs| && RowIntoGroups(g, key, d, aggs[..n]).Err?
    ensures RowIntoGroups(g, key, d, aggs) == RowIntoGroups(g, key, d, aggs[..n])
    decreases |aggs| - n
  {
    if n < |aggs| {
      assert aggs[..n + 1][..n] == aggs[..n];
      RowIntoGroupsPrefixErr(g, key, d, aggs, n + 1);
    } else {
      assert aggs[..n] == aggs;
    }
  }

  /** The loop of `_agg` over one group's items. */
  method ApplyGroup(rows: Group, items: Group, f: seq<Value> -> Value) returns (res: Group)
    requires DistinctKeys(rows)
    ensures res == ApplyItems(rows, items, f)
  {
    res := rows;
    for j := 0 to |items|
      invariant res == ApplyItems(rows, items[..j], f)
    {
      assert items[..j + 1][..j] == items[..j];
      res := AppendTo(res, items[j].0, f(items[j].1));
    }
    assert items[..|items|] == items;
  }

  /** `_agg(by, aggs, groups)`: the column list and the rows `[k] + values`. */
  method Aggregate(keyCols: StrS, aggs: seq<Agg>, groups: Groups) returns (res: Result<(seq<string>, seq<seq<Value>>), KErr>)
    ensures res.Err? <==> AggRows(aggs, groups).Err?
    ensures res.Err? ==> res.error == AggRows(aggs, groups).error
    ensures res.Ok? ==> res.value.0 == AggCols(keyCols, aggs)
    ensures res.Ok? ==>
      var rows := AggRows(aggs, groups).value;
      |res.value.1| == |rows| && forall i :: 0 <= i < |rows| ==> res.value.1[i] == [rows[i].0] + rows[i].1
  {
    var built := AggLoop(keyCols, aggs, groups);
    if built.Err? {
      return Err(built.error);
    }
    var newRows := RowLists(built.value.1);
    res := Ok((built.value.0, newRows));
  }

  /** The aggregation loop of `_agg`: the column names and the rows dict,
      or the first missing group. */
  method AggLoop(keyCols: StrS, aggs: seq<Agg>, groups: Groups) returns (res: Result<(seq<string>, Group), KErr>)
    ensures AggRows(aggs, groups).Err? ==> res == Err(AggRows(aggs, groups).error)
    ensures AggRows(aggs, groups).Ok? ==> res == Ok((AggCols(keyCols, aggs), AggRows(aggs, groups).value))
  {
    var cols: seq<string> := [];
    var rows: Group := [];
    for i := 0 to |aggs|
      invariant AggRows(aggs[..i], groups) == Ok(rows)
      invariant cols == AggCols(keyCols, aggs[..i])
    {
      AggColsStep(keyCols, aggs, i);
      cols := cols + (if i == 0 then Listify(keyCols) else []) + [aggs[i].name];
      AggRowsStep(aggs, groups, i, rows);
      var group := Get(groups, aggs[i].name);
      if group.None? {
        AggRowsPrefixErr(aggs, groups, i + 1);
        return Err(KeyError(aggs[i].name));
      }
      rows := ApplyGroup(rows, group.value, aggs[i].f);
    }
    assert aggs[..|aggs|] == aggs;
    res := Ok((cols, rows));
  }

  lemma {:induction false} AggColsStep(keyCols: StrS, aggs: seq<Agg>, i: nat)
    requires i < |aggs|
    ensures AggCols(keyCols, aggs[..i + 1]) ==
            AggCols(keyCols, aggs[..i]) + (if i == 0 then Listify(keyCols) else []) + [aggs[i].name]
  {
    var pre := aggs[..i];
    var next := aggs[..i + 1];
    assert next[..i] == pre && next[i] == aggs[i];
    var ns := Names(pre);
    assert Names(next) == ns + [aggs[i].name];
    var lk := Listify(keyCols);
    if i == 0 {
      assert pre == [] && ns == [];
    } else {
      assert AggCols(keyCols, pre) == lk + ns;
      assert AggCols(keyCols, next) == lk + (ns + [aggs[i].name]);
    }
  }

  lemma {:induction false} AggRowsStep(aggs: seq<Agg>, groups: Groups, i: nat, rows: Group)
    requires i < |aggs| && AggRows(aggs[..i], groups) == Ok(rows)
    ensures Get(groups, aggs[i].name).None? ==> AggRows(aggs[..i + 1], groups) == Err(KeyError(aggs[i].name))
    ensures Get(groups, aggs[i].name).Some? ==>
            AggRows(aggs[..i + 1], groups) == Ok(ApplyItems(rows, Get(groups, aggs[i].name).value, aggs[i].f))
  {
    var pre := aggs[..i + 1];
    assert pre[..|pre| - 1] == aggs[..i];
    assert pre[|pre| - 1] == aggs[i];
  }

  /** The last loop of `_agg`: `[k]` extended by `v` for each entry. */
  method RowLists(rows: Group) returns (newRows: seq<seq<Value>>)
    ensures |newRows| == |rows| && forall i :: 0 <= i < |rows| ==> newRows[i] == [rows[i].0] + rows[i].1
  {
    newRows := [];
    for i := 0 to |rows|
      invariant |newRows| == i
      invariant forall p :: 0 <= p < i ==> newRows[p] == [rows[p].0] + rows[p].1
    {
      newRows := newRows + [[rows[i].0] + rows[i].1];
    }
  }

  /** An error on a prefix of the aggregations is the outcome. */
  lemma {:induction false} AggRowsPrefixErr(aggs: seq<Agg>, groups: Groups, n: nat)
    requires n <= |aggs| && AggRows(aggs[..n], groups).Err?
    ensures AggRows(aggs, groups) == AggRows(aggs[..n], groups)
    decreases |aggs| - n
  {
    if n < |aggs| {
      assert aggs[..n + 1][..n] == aggs[..n];
      AggRowsPrefixErr(aggs, groups, n + 1);
    } else {
      assert aggs[..n] == aggs;
    }
  }
}
