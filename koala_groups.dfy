/** `collections.defaultdict(list)` filled by `d[k].append(v)` in a loop,
    the pattern koala.py uses to group rows (`_groupby`) and to index the
    right table of a join (`_join`). Keys keep their order of first
    appearance and each key collects its values in order. */
module KoalaGroups {
  import opened Wrappers
  import opened PyDict

  /** `d[k].append(v)` on a `defaultdict(list)`. */
  function AppendTo<K(==,!new), V>(d: Dict<K, seq<V>>, k: K, v: V): (r: Dict<K, seq<V>>)
    requires DistinctKeys(d)
    ensures DistinctKeys(r)
    ensures Get(r, k) == Some((if Get(d, k).Some? then Get(d, k).value else []) + [v])
    ensures forall k' :: k' != k ==> Get(r, k') == Get(d, k')
  {
    Put(d, k, (if Get(d, k).Some? then Get(d, k).value else []) + [v])
  }

  /** The dict after appending `vs[i]` under `ks[i]` for i = 0, 1, ... */
  function Grouped<K(==,!new), V>(ks: seq<K>, vs: seq<V>): (d: Dict<K, seq<V>>)
    requires |ks| == |vs|
    ensures DistinctKeys(d)
  {
    if ks == [] then []
    else AppendTo(Grouped(ks[..|ks| - 1], vs[..|vs| - 1]), ks[|ks| - 1], vs[|vs| - 1])
  }

  /** The values stored at the positions whose key is `k`, in order. */
  function Select<K(==), V>(ks: seq<K>, vs: seq<V>, k: K): (r: seq<V>)
    requires |ks| == |vs|
    ensures |r| <= |vs|
    ensures r == [] <==> forall i :: 0 <= i < |ks| ==> ks[i] != k
  {
    if ks == [] then []
    else Select(ks[..|ks| - 1], vs[..|vs| - 1], k) + (if ks[|ks| - 1] == k then [vs[|vs| - 1]] else [])
  }

  /** The distinct keys, in order of first appearance. */
  function FirstSeen<K(==,!new)>(ks: seq<K>): (r: seq<K>)
    ensures forall k :: k in r <==> k in ks
    ensures forall i, j :: 0 <= i < j < |r| ==> r[i] != r[j]
  {
    if ks == [] then []
    else
      var init := FirstSeen(ks[..|ks| - 1]);
      var last := ks[|ks| - 1];
      if last in init then init else init + [last]
  }

  /** A key's list holds exactly the values appended under it, in order; a
      key never appended is absent. */
  lemma {:induction false} GroupedGet<K(!new), V>(ks: seq<K>, vs: seq<V>, k: K)
    requires |ks| == |vs|
    ensures Get(Grouped(ks, vs), k) == if Select(ks, vs, k) == [] then None else Some(Select(ks, vs, k))
  {
    if ks != [] {
      var ki := ks[..|ks| - 1];
      var vi := vs[..|vs| - 1];
      GroupedGet(ki, vi, k);
      var sel := Select(ki, vi, k);
      if ks[|ks| - 1] == k {
        assert Select(ks, vs, k) == sel + [vs[|vs| - 1]];
      } else {
        assert Select(ks, vs, k) == sel + [];
        assert sel + [] == sel;
      }
    }
  }

  /** The keys come in order of first appearance. */
  lemma {:induction false} GroupedKeys<K(!new), V>(ks: seq<K>, vs: seq<V>)
    requires |ks| == |vs|
    ensures Keys(Grouped(ks, vs)) == FirstSeen(ks)
  {
    if ks != [] {
      var init := ks[..|ks| - 1];
      var d := Grouped(init, vs[..|vs| - 1]);
      GroupedKeys(init, vs[..|vs| - 1]);
      var last := ks[|ks| - 1];
      if last in FirstSeen(init) {
        var j :| 0 <= j < |Keys(d)| && Keys(d)[j] == last;
        assert d[j].0 == last;
      } else {
        assert forall j :: 0 <= j < |d| ==> d[j].0 != last by {
          forall j | 0 <= j < |d| ensures d[j].0 != last {
            assert Keys(d)[j] == d[j].0;
          }
        }
      }
    }
  }

  /** `for k, v in items.items(): rows[k].append(f(v))`. */
  function ApplyItems<K(==,!new), V, W>(rows: Dict<K, seq<W>>, items: Dict<K, V>, f: V -> W): (r: Dict<K, seq<W>>)
    requires DistinctKeys(rows)
    ensures DistinctKeys(r)
  {
    if items == [] then rows
    else
      var last := items[|items| - 1];
      AppendTo(ApplyItems(rows, items[..|items| - 1], f), last.0, f(last.1))
  }

  /** A lookup in a dict with distinct keys finds its last entry, or looks
      among the others. */
  lemma {:induction false} GetLast<K(!new), V>(d: Dict<K, V>, k: K)
    requires d != [] && DistinctKeys(d)
    ensures Get(d, k) == if k == d[|d| - 1].0 then Some(d[|d| - 1].1) else Get(d[..|d| - 1], k)
  {
    var init := d[..|d| - 1];
    assert init + [d[|d| - 1]] == d;
    GetSnoc(init, d[|d| - 1], k);
  }

  /** A key appears among the keys exactly when a lookup finds it. */
  lemma {:induction false} KeysGet<K(!new), V>(d: Dict<K, V>, k: K)
    ensures k in Keys(d) <==> Get(d, k).Some?
  {
    if k in Keys(d) {
      var j :| 0 <= j < |d| && Keys(d)[j] == k;
    }
  }

  /** Appending under the key at position `i` extends that entry's list in
      place. */
  lemma {:induction false} AppendToAt<K(!new), V>(d: Dict<K, seq<V>>, i: nat, v: V)
    requires DistinctKeys(d) && i < |d|
    ensures AppendTo(d, d[i].0, v) == d[i := (d[i].0, d[i].1 + [v])]
  {
    var f := Find(d, d[i].0);
    assert f.Some? && f.value == i;
  }

  /** Appending under a new key adds an entry at the end. */
  lemma {:induction false} AppendToNew<K(!new), V>(d: Dict<K, seq<V>>, k: K, v: V)
    requires DistinctKeys(d) && forall j :: 0 <= j < |d| ==> d[j].0 != k
    ensures AppendTo(d, k, v) == d + [(k, [v])]
  {
    assert Find(d, k).None?;
    assert [] + [v] == [v];
  }

  /** The entries of a grouping: the distinct keys in order of first
      appearance, each with the values stored under it. */
  lemma {:induction false} GroupedAt<K(!new), V>(ks: seq<K>, vs: seq<V>, i: nat)
    requires |ks| == |vs| && i < |FirstSeen(ks)|
    ensures |Grouped(ks, vs)| == |FirstSeen(ks)|
    ensures Grouped(ks, vs)[i] == (FirstSeen(ks)[i], Select(ks, vs, FirstSeen(ks)[i]))
  {
    var d := Grouped(ks, vs);
    GroupedKeys(ks, vs);
    assert Keys(d)[i] == d[i].0;
    GetAt(d, i);
    GroupedGet(ks, vs, d[i].0);
  }

  /** Applying to a fresh dict: one entry per item, in order, holding the
      one-element list of its result. */
  lemma {:induction false} ApplyItemsFresh<K(!new), V, W>(items: Dict<K, V>, f: V -> W)
    requires DistinctKeys(items)
    ensures var r := ApplyItems([], items, f);
      |r| == |items| && forall i :: 0 <= i < |items| ==> r[i] == (items[i].0, [f(items[i].1)])
  {
    if items != [] {
      var init := items[..|items| - 1];
      var last := items[|items| - 1];
      assert forall i :: 0 <= i < |init| ==> init[i] == items[i];
      ApplyItemsFresh(init, f);
      var r0 := ApplyItems([], init, f);
      AppendToNew(r0, last.0, f(last.1));
    }
  }

  /** Applying to a dict whose leading keys are the items' keys, in the
      same order: each of those entries gets its item's result appended,
      and the rest stay. */
  lemma {:induction false} ApplyItemsAligned<K(!new), V, W>(rows: Dict<K, seq<W>>, items: Dict<K, V>, f: V -> W, i: nat)
    requires DistinctKeys(rows) && |items| <= |rows| && i < |rows|
    requires forall j :: 0 <= j < |items| ==> items[j].0 == rows[j].0
    ensures |ApplyItems(rows, items, f)| == |rows|
    ensures ApplyItems(rows, items, f)[i] ==
      if i < |items| then (rows[i].0, rows[i].1 + [f(items[i].1)]) else rows[i]
  {
    if items != [] {
      var init := items[..|items| - 1];
      var last := items[|items| - 1];
      var m := |items| - 1;
      assert forall j :: 0 <= j < |init| ==> init[j] == items[j];
      ApplyItemsAligned(rows, init, f, m);
      ApplyItemsAligned(rows, init, f, i);
      var r0 := ApplyItems(rows, init, f);
      AppendToAt(r0, m, f(last.1));
    }
  }

  /** Applying a grouping to a fresh dict: one entry per distinct key, in
      order of first appearance, holding the one-element list of the result
      on that key's values. */
  lemma {:induction false} ApplyGroupedFresh<K(!new), V, W>(ks: seq<K>, vs: seq<V>, f: seq<V> -> W, i: nat)
    requires |ks| == |vs| && i < |FirstSeen(ks)|
    ensures |ApplyItems([], Grouped(ks, vs), f)| == |FirstSeen(ks)|
    ensures ApplyItems([], Grouped(ks, vs), f)[i] == (FirstSeen(ks)[i], [f(Select(ks, vs, FirstSeen(ks)[i]))])
  {
    var group := Grouped(ks, vs);
    GroupedAt(ks, vs, i);
    ApplyItemsFresh(group, f);
  }

  /** Applying a grouping to a dict with the same keys in the same order:
      each entry gets the result on its key's values appended. */
  lemma {:induction false} ApplyGroupedAligned<K(!new), V, W>(rows: Dict<K, seq<W>>, ks: seq<K>, vs: seq<V>, f: seq<V> -> W, i: nat)
    requires |ks| == |vs| && DistinctKeys(rows) && |rows| == |FirstSeen(ks)| && i < |rows|
    requires forall j :: 0 <= j < |rows| ==> rows[j].0 == FirstSeen(ks)[j]
    ensures |ApplyItems(rows, Grouped(ks, vs), f)| == |rows|
    ensures ApplyItems(rows, Grouped(ks, vs), f)[i] == (rows[i].0, rows[i].1 + [f(Select(ks, vs, rows[i].0))])
  {
    var group := Grouped(ks, vs);
    GroupedAt(ks, vs, i);
    forall j | 0 <= j < |rows| ensures group[j].0 == rows[j].0 {
      GroupedAt(ks, vs, j);
    }
    GroupedAt(ks, vs, i);
    ApplyItemsAligned(rows, group, f, i);
  }
}
