/** `list.sort(key=..., reverse=...)` as koala.py's `sort` uses it: a stable
    sort of the rows by the list of their key-column cells. The order is
    built by inserting the row indices one at a time; it is a permutation
    of the indices in which every earlier row comes strictly "before" every
    later one: a smaller key (larger when reversed), or the same key and an
    earlier original position. */
module KoalaSort {
  import opened KoalaValues

  /** Every key-column index is within every row. */
  predicate IndicesFit(rows: seq<seq<Value>>, ii: seq<nat>) {
    forall r, j :: 0 <= r < |rows| && 0 <= j < |ii| ==> ii[j] < |rows[r]|
  }

  /** `_sort_fn(x)`: the cells of the key columns, in the order listed. */
  function Key(row: seq<Value>, ii: seq<nat>): (k: seq<Value>)
    requires forall j :: 0 <= j < |ii| ==> ii[j] < |row|
    ensures |k| == |ii| && forall j :: 0 <= j < |ii| ==> k[j] == row[ii[j]]
  {
    seq(|ii|, j requires 0 <= j < |ii| => row[ii[j]])
  }

  /** Row `p` belongs before row `q` in the stable order. */
  predicate Before(rows: seq<seq<Value>>, ii: seq<nat>, rev: bool, p: nat, q: nat)
    requires IndicesFit(rows, ii) && p < |rows| && q < |rows|
  {
    var a := Key(rows[p], ii);
    var b := Key(rows[q], ii);
    if a == b then p < q else if rev then SeqLe(b, a) else SeqLe(a, b)
  }

  lemma {:induction false} BeforeTotal(rows: seq<seq<Value>>, ii: seq<nat>, rev: bool, p: nat, q: nat)
    requires IndicesFit(rows, ii) && p < |rows| && q < |rows| && p != q
    ensures Before(rows, ii, rev, p, q) || Before(rows, ii, rev, q, p)
  {
    SeqLeTotal(Key(rows[p], ii), Key(rows[q], ii));
  }

  lemma {:induction false} BeforeAsymmetric(rows: seq<seq<Value>>, ii: seq<nat>, rev: bool, p: nat, q: nat)
    requires IndicesFit(rows, ii) && p < |rows| && q < |rows|
    requires Before(rows, ii, rev, p, q)
    ensures !Before(rows, ii, rev, q, p)
  {
    SeqLeTotal(Key(rows[p], ii), Key(rows[q], ii));
  }

  lemma {:induction false} BeforeTransitive(rows: seq<seq<Value>>, ii: seq<nat>, rev: bool, p: nat, q: nat, r: nat)
    requires IndicesFit(rows, ii) && p < |rows| && q < |rows| && r < |rows|
    requires Before(rows, ii, rev, p, q) && Before(rows, ii, rev, q, r)
    ensures Before(rows, ii, rev, p, r)
  {
    var a, b, c := Key(rows[p], ii), Key(rows[q], ii), Key(rows[r], ii);
    if a != b && b != c {
      if rev {
        SeqLeTrans(c, b, a);
        SeqLeTotal(a, b);
      } else {
        SeqLeTrans(a, b, c);
        SeqLeTotal(a, b);
      }
    }
  }

  /** Insert index `q` after the leading indices that come before it. */
  function Insert(rows: seq<seq<Value>>, ii: seq<nat>, rev: bool, order: seq<nat>, q: nat): (r: seq<nat>)
    requires IndicesFit(rows, ii) && q < |rows|
    requires forall i :: 0 <= i < |order| ==> order[i] < |rows|
    ensures |r| == |order| + 1
    ensures multiset(r) == multiset(order) + multiset{q}
    ensures forall i :: 0 <= i < |r| ==> r[i] < |rows|
  {
    if order == [] then [q]
    else if Before(rows, ii, rev, order[0], q) then
      assert order == [order[0]] + order[1..];
      [order[0]] + Insert(rows, ii, rev, order[1..], q)
    else [q] + order
  }

  /** The order is strictly increasing under `Before`. */
  predicate Ordered(rows: seq<seq<Value>>, ii: seq<nat>, rev: bool, order: seq<nat>)
    requires IndicesFit(rows, ii)
    requires forall i :: 0 <= i < |order| ==> order[i] < |rows|
  {
    forall i, j :: 0 <= i < j < |order| ==> Before(rows, ii, rev, order[i], order[j])
  }

  lemma {:induction false} InsertOrdered(rows: seq<seq<Value>>, ii: seq<nat>, rev: bool, order: seq<nat>, q: nat)
    requires IndicesFit(rows, ii) && q < |rows|
    requires forall i :: 0 <= i < |order| ==> order[i] < |rows| && order[i] != q
    requires Ordered(rows, ii, rev, order)
    ensures Ordered(rows, ii, rev, Insert(rows, ii, rev, order, q))
  {
    var r := Insert(rows, ii, rev, order, q);
    if order == [] {
    } else if Before(rows, ii, rev, order[0], q) {
      var tail := order[1..];
      InsertOrdered(rows, ii, rev, tail, q);
      var t := Insert(rows, ii, rev, tail, q);
      assert r == [order[0]] + t;
      forall j | 0 <= j < |t|
        ensures Before(rows, ii, rev, order[0], t[j])
      {
        assert t[j] in multiset(t);
        if t[j] != q {
          assert t[j] in multiset(tail);
          var k :| 0 <= k < |tail| && tail[k] == t[j];
          assert order[k + 1] == tail[k];
        }
      }
      OrderedCons(rows, ii, rev, order[0], t);
    } else {
      forall j | 0 <= j < |order|
        ensures Before(rows, ii, rev, q, order[j])
      {
        BeforeTotal(rows, ii, rev, order[0], q);
        if j > 0 {
          BeforeTransitive(rows, ii, rev, q, order[0], order[j]);
        }
      }
      OrderedCons(rows, ii, rev, q, order);
    }
  }

  lemma {:induction false} OrderedCons(rows: seq<seq<Value>>, ii: seq<nat>, rev: bool, x: nat, t: seq<nat>)
    requires IndicesFit(rows, ii) && x < |rows|
    requires forall i :: 0 <= i < |t| ==> t[i] < |rows|
    requires Ordered(rows, ii, rev, t)
    requires forall j :: 0 <= j < |t| ==> Before(rows, ii, rev, x, t[j])
    ensures Ordered(rows, ii, rev, [x] + t)
  {
    var r := [x] + t;
    forall i, j | 0 <= i < j < |r| ensures Before(rows, ii, rev, r[i], r[j]) {
      assert r[j] == t[j - 1];
      if i > 0 {
        assert r[i] == t[i - 1];
      }
    }
  }

  /** The indices 0..n-1 in increasing order. */
  function Range(n: nat): (r: seq<nat>)
    ensures |r| == n && forall i :: 0 <= i < n ==> r[i] == i
  {
    if n == 0 then [] else Range(n - 1) + [n - 1]
  }

  /** The stable order of the first `n` rows. */
  function SortOrder(rows: seq<seq<Value>>, ii: seq<nat>, rev: bool, n: nat): (order: seq<nat>)
    requires IndicesFit(rows, ii) && n <= |rows|
    ensures |order| == n
    ensures multiset(order) == multiset(Range(n))
    ensures forall i :: 0 <= i < |order| ==> order[i] < n
  {
    if n == 0 then []
    else
      var prev := SortOrder(rows, ii, rev, n - 1);
      var r := Insert(rows, ii, rev, prev, n - 1);
      assert forall i :: 0 <= i < |r| ==> r[i] < n by {
        forall i | 0 <= i < |r| ensures r[i] < n {
          assert r[i] in multiset(r);
          if r[i] != n - 1 {
            assert r[i] in multiset(prev);
          }
        }
      }
      r
  }

  /** The order sorts the rows, and each index appears once. */
  lemma {:induction false} SortOrderSorted(rows: seq<seq<Value>>, ii: seq<nat>, rev: bool, n: nat)
    requires IndicesFit(rows, ii) && n <= |rows|
    ensures Ordered(rows, ii, rev, SortOrder(rows, ii, rev, n))
  {
    if n > 0 {
      SortOrderSorted(rows, ii, rev, n - 1);
      SortOrderStep(rows, ii, rev, n);
    }
  }

  lemma {:induction false} SortOrderStep(rows: seq<seq<Value>>, ii: seq<nat>, rev: bool, n: nat)
    requires IndicesFit(rows, ii) && 0 < n <= |rows|
    requires Ordered(rows, ii, rev, SortOrder(rows, ii, rev, n - 1))
    ensures Ordered(rows, ii, rev, SortOrder(rows, ii, rev, n))
  {
    var prev := SortOrder(rows, ii, rev, n - 1);
    InsertOrdered(rows, ii, rev, prev, n - 1);
  }

  /** The rows in the given order. */
  function Apply(rows: seq<seq<Value>>, order: seq<nat>): (r: seq<seq<Value>>)
    requires forall i :: 0 <= i < |order| ==> order[i] < |rows|
    ensures |r| == |order| && forall i :: 0 <= i < |order| ==> r[i] == rows[order[i]]
  {
    if order == [] then [] else [rows[order[0]]] + Apply(rows, order[1..])
  }

  /** `rows.sort(key=_sort_fn, reverse=reverse)`. */
  function SortRows(rows: seq<seq<Value>>, ii: seq<nat>, rev: bool): (r: seq<seq<Value>>)
    requires IndicesFit(rows, ii)
    ensures |r| == |rows| && forall i :: 0 <= i < |r| ==> r[i] in rows
  {
    Apply(rows, SortOrder(rows, ii, rev, |rows|))
  }

  /** The sorted rows are the rows permuted by an order of the indices that
      is non-decreasing in the key (non-increasing when reversed) and keeps
      rows with equal keys in their original order. */
  lemma {:induction false} SortRowsSpec(rows: seq<seq<Value>>, ii: seq<nat>, rev: bool)
    requires IndicesFit(rows, ii)
    ensures var order := SortOrder(rows, ii, rev, |rows|);
      var r := SortRows(rows, ii, rev);
      multiset(order) == multiset(Range(|rows|)) &&
      (forall i :: 0 <= i < |r| ==> r[i] == rows[order[i]]) &&
      (forall i, j :: 0 <= i < j < |r| ==>
        var a := Key(r[i], ii);
        var b := Key(r[j], ii);
        (if rev then SeqLe(b, a) else SeqLe(a, b)) && (a == b ==> order[i] < order[j]))
  {
    var order := SortOrder(rows, ii, rev, |rows|);
    SortOrderSorted(rows, ii, rev, |rows|);
    forall i, j | 0 <= i < j < |order|
      ensures var a := Key(rows[order[i]], ii);
        var b := Key(rows[order[j]], ii);
        (if rev then SeqLe(b, a) else SeqLe(a, b)) && (a == b ==> order[i] < order[j])
    {
      assert Before(rows, ii, rev, order[i], order[j]);
      var a := Key(rows[order[i]], ii);
      if rev {
        SeqLeTotal(a, a);
      } else {
        SeqLeTotal(a, a);
      }
    }
  }
}
