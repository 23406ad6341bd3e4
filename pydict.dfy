/** Python's built-in `dict` as the programs use it: an association list whose
    keys are distinct and kept in insertion order. Assigning to a key that is
    already present replaces its value in place; a new key is appended.
    `dict(pairs)` and a dict comprehension are the left fold of that
    assignment over their pairs. */
module PyDict {
  import opened Wrappers

  type Dict<K, V> = seq<(K, V)>

  function Keys<K(==,!new), V>(d: Dict<K, V>): (ks: seq<K>)
    ensures |ks| == |d|
    ensures forall i :: 0 <= i < |d| ==> ks[i] == d[i].0
  {
    if d == [] then [] else Keys(d[..|d| - 1]) + [d[|d| - 1].0]
  }

  /** No key occurs twice. */
  predicate DistinctKeys<K(==,!new), V>(d: Dict<K, V>) {
    forall i, j :: 0 <= i < j < |d| ==> d[i].0 != d[j].0
  }

  /** The position of key `k`, if present. */
  function Find<K(==,!new), V>(d: Dict<K, V>, k: K): (r: Option<nat>)
    ensures r.Some? ==> r.value < |d| && d[r.value].0 == k
    ensures r.Some? ==> forall j :: 0 <= j < r.value ==> d[j].0 != k
    ensures r.None? <==> forall j :: 0 <= j < |d| ==> d[j].0 != k
  {
    if d == [] then None
    else if d[0].0 == k then Some(0)
    else match Find(d[1..], k)
      case None => None
      case Some(i) => Some(i + 1)
  }

  /** `d.get(k)`: the value stored under `k`, if any. */
  function Get<K(==,!new), V>(d: Dict<K, V>, k: K): (r: Option<V>)
    ensures r.None? <==> forall j :: 0 <= j < |d| ==> d[j].0 != k
    ensures r.Some? ==> exists j :: 0 <= j < |d| && d[j] == (k, r.value)
  {
    match Find(d, k)
    case None => None
    case Some(i) => Some(d[i].1)
  }

  /** `d[k] = v`. */
  function Put<K(==,!new), V>(d: Dict<K, V>, k: K, v: V): (r: Dict<K, V>)
    requires DistinctKeys(d)
    ensures DistinctKeys(r)
    ensures Get(r, k) == Some(v)
    ensures forall k' :: k' != k ==> Get(r, k') == Get(d, k')
    ensures Find(d, k).Some? ==> Keys(r) == Keys(d)
    ensures Find(d, k).None? ==> Keys(r) == Keys(d) + [k]
  {
    match Find(d, k)
    case Some(i) =>
      PutReplace(d, k, v, i);
      d[i := (k, v)]
    case None =>
      PutAppend(d, k, v);
      d + [(k, v)]
  }

  lemma PutReplace<K(!new), V>(d: Dict<K, V>, k: K, v: V, i: nat)
    requires DistinctKeys(d) && Find(d, k) == Some(i)
    ensures var r := d[i := (k, v)];
            DistinctKeys(r) && Get(r, k) == Some(v) && Keys(r) == Keys(d) &&
            forall k' :: k' != k ==> Get(r, k') == Get(d, k')
  {
    var r := d[i := (k, v)];
    assert Find(r, k) == Some(i) by {
      var f := Find(r, k);
      assert r[i].0 == k;
      assert f.Some? && f.value <= i;
      assert forall j :: 0 <= j < i ==> r[j].0 != k;
    }
    forall k' | k' != k ensures Get(r, k') == Get(d, k') {
      FindUnchanged(d, r, k', i);
    }
    assert Keys(r) == Keys(d);
  }

  lemma PutAppend<K(!new), V>(d: Dict<K, V>, k: K, v: V)
    requires DistinctKeys(d) && Find(d, k).None?
    ensures var r := d + [(k, v)];
            DistinctKeys(r) && Get(r, k) == Some(v) && Keys(r) == Keys(d) + [k] &&
            forall k' :: k' != k ==> Get(r, k') == Get(d, k')
  {
    var r := d + [(k, v)];
    forall k' | k' != k ensures Get(r, k') == Get(d, k') {
      FindAppend(d, (k, v), k');
    }
    assert Keys(r) == Keys(d) + [k];
  }

  lemma {:induction false} FindUnchanged<K(!new), V>(d: Dict<K, V>, r: Dict<K, V>, k: K, i: nat)
    requires |r| == |d| && i < |d|
    requires forall j :: 0 <= j < |d| && j != i ==> r[j] == d[j]
    requires d[i].0 != k && r[i].0 != k
    ensures Find(r, k) == Find(d, k)
  {
    if d != [] && d[0].0 != k {
      if i == 0 {
        assert r[1..] == d[1..];
      } else {
        FindUnchanged(d[1..], r[1..], k, i - 1);
      }
    }
  }

  lemma {:induction false} FindAppend<K(!new), V>(d: Dict<K, V>, p: (K, V), k: K)
    requires p.0 != k
    ensures Find(d + [p], k) == Find(d, k)
  {
    if d != [] && d[0].0 != k {
      assert (d + [p])[1..] == d[1..] + [p];
      FindAppend(d[1..], p, k);
    }
  }

  /** `d.get(k, dflt)`. */
  function GetOr<K(==,!new), V>(d: Dict<K, V>, k: K, dflt: V): (r: V)
    ensures Get(d, k).Some? ==> r == Get(d, k).value
    ensures Get(d, k).None? ==> r == dflt
  {
    match Get(d, k)
    case Some(v) => v
    case None => dflt
  }

  /** In a dict, the key at a position leads to the value at that position. */
  lemma GetAt<K(!new), V>(d: Dict<K, V>, i: nat)
    requires DistinctKeys(d) && i < |d|
    ensures Get(d, d[i].0) == Some(d[i].1)
  {
    var f := Find(d, d[i].0);
    assert f.Some?;
    assert f.value == i;
  }

  /** Appending a pair with a fresh key: the key maps to its value and no
      other key changes. */
  lemma GetSnoc<K(!new), V>(d: Dict<K, V>, p: (K, V), k: K)
    requires forall j :: 0 <= j < |d| ==> d[j].0 != p.0
    ensures Get(d + [p], k) == if k == p.0 then Some(p.1) else Get(d, k)
  {
    if k == p.0 {
      var f := Find(d + [p], k);
      assert (d + [p])[|d|].0 == k;
      assert f.Some? && f.value == |d|;
    } else {
      FindAppend(d, p, k);
    }
  }

  /** `dict(pairs)`, or a dict comprehension over `pairs`: later pairs win. */
  function FromPairs<K(==,!new), V>(ps: seq<(K, V)>): (d: Dict<K, V>)
    ensures DistinctKeys(d)
  {
    if ps == [] then []
    else
      var init := ps[..|ps| - 1];
      var last := ps[|ps| - 1];
      Put(FromPairs(init), last.0, last.1)
  }

  /** Adding one more pair is one more assignment. */
  lemma FromPairsSnoc<K(!new), V>(ps: seq<(K, V)>, p: (K, V))
    ensures FromPairs(ps + [p]) == Put(FromPairs(ps), p.0, p.1)
  {
    assert (ps + [p])[..|ps|] == ps;
  }

  /** A key no pair carries is absent. */
  lemma {:induction false} FromPairsAbsent<K(!new), V>(ps: seq<(K, V)>, k: K)
    requires forall j :: 0 <= j < |ps| ==> ps[j].0 != k
    ensures Get(FromPairs(ps), k).None?
  {
    if ps != [] {
      var init := ps[..|ps| - 1];
      FromPairsAbsent(init, k);
    }
  }

  /** A key some pair carries is present. */
  lemma {:induction false} FromPairsPresent<K(!new), V>(ps: seq<(K, V)>, j: nat, k: K)
    requires j < |ps| && ps[j].0 == k
    ensures Get(FromPairs(ps), k).Some?
  {
    var init := ps[..|ps| - 1];
    if j < |ps| - 1 && ps[|ps| - 1].0 != k {
      FromPairsPresent(init, j, k);
    }
  }

  /** Every value found comes from a pair with that key. */
  lemma {:induction false} FromPairsFrom<K(!new), V>(ps: seq<(K, V)>, k: K)
    requires Get(FromPairs(ps), k).Some?
    ensures exists j :: 0 <= j < |ps| && ps[j] == (k, Get(FromPairs(ps), k).value)
  {
    var init := ps[..|ps| - 1];
    var last := ps[|ps| - 1];
    if last.0 == k {
      assert ps[|ps| - 1] == (k, Get(FromPairs(ps), k).value);
    } else {
      assert Get(FromPairs(ps), k) == Get(FromPairs(init), k);
      FromPairsFrom(init, k);
      var j :| 0 <= j < |init| && init[j] == (k, Get(FromPairs(init), k).value);
      assert ps[j] == init[j];
    }
  }

  /** The value a key ends up with is that of its last pair. */
  lemma {:induction false} FromPairsLast<K(!new), V>(ps: seq<(K, V)>, i: nat)
    requires i < |ps|
    requires forall j :: i < j < |ps| ==> ps[j].0 != ps[i].0
    ensures Get(FromPairs(ps), ps[i].0) == Some(ps[i].1)
  {
    if i < |ps| - 1 {
      FromPairsLast(ps[..|ps| - 1], i);
    }
  }

  /** Pairs whose keys are already distinct make a dict of exactly those pairs. */
  lemma {:induction false} FromPairsDistinct<K(!new), V>(ps: seq<(K, V)>)
    requires DistinctKeys(ps)
    ensures FromPairs(ps) == ps
  {
    if ps != [] {
      var init, last := ps[..|ps| - 1], ps[|ps| - 1];
      LastKeyFresh(ps);
      FromPairsDistinct(init);
      PutFresh(init, last.0, last.1);
      assert init + [last] == ps;
    }
  }

  /** Without the last pair, the keys stay distinct and miss the last key. */
  lemma LastKeyFresh<K(!new), V>(ps: seq<(K, V)>)
    requires DistinctKeys(ps) && ps != []
    ensures DistinctKeys(ps[..|ps| - 1])
    ensures Find(ps[..|ps| - 1], ps[|ps| - 1].0).None?
  {
    var init := ps[..|ps| - 1];
    forall j | 0 <= j < |init| ensures init[j].0 != ps[|ps| - 1].0 {
      assert init[j] == ps[j];
    }
  }

  /** Assigning a key that is not there appends its pair. */
  lemma PutFresh<K(!new), V>(d: Dict<K, V>, k: K, v: V)
    requires DistinctKeys(d) && Find(d, k).None?
    ensures Put(d, k, v) == d + [(k, v)]
  {
  }

  /** The dict as a Dafny map (forgetting the order of the keys). */
  function ToMap<K(==,!new), V>(d: Dict<K, V>): (m: map<K, V>)
    ensures forall k :: k in m <==> Get(d, k).Some?
    ensures forall k :: k in m ==> Get(d, k) == Some(m[k])
  {
    map k | k in Keys(d) :: Get(d, k).value
  }
}
