/** mex.py: `sigma_algebra`, which lists every sublist of a list (all
    `itertools.combinations` of size 0, then size 1, ..., then the whole list),
    and `estimate_models`, which filters those regressor sets, fits a model to
    each survivor and filters the models. Combinations are modelled on index
    tuples: a sublist is the list's elements at a strictly increasing tuple of
    positions. */
module Mex {
  import opened Wrappers

  /** Strictly increasing positions: an order-preserving choice of elements. */
  predicate Increasing(t: seq<nat>) {
    forall i, j :: 0 <= i < j < |t| ==> t[i] < t[j]
  }

  /** Every position lies in [lo, n). */
  predicate Within(t: seq<nat>, lo: nat, n: nat) {
    forall i :: 0 <= i < |t| ==> lo <= t[i] < n
  }

  /** Strict lexicographic order on index tuples, as `itertools.combinations`
      emits them. */
  predicate LexLess(a: seq<nat>, b: seq<nat>) {
    a != [] && b != [] && (a[0] < b[0] || (a[0] == b[0] && LexLess(a[1..], b[1..])))
  }

  function Prepend(x: nat, ts: seq<seq<nat>>): (r: seq<seq<nat>>)
    ensures |r| == |ts|
    ensures forall i :: 0 <= i < |r| ==> r[i] == [x] + ts[i]
  {
    seq(|ts|, i requires 0 <= i < |ts| => [x] + ts[i])
  }

  /** `itertools.combinations(range(lo, n), k)`: tuples starting with `lo`
      first, then those drawn from `lo + 1` on. */
  function Combinations(lo: nat, n: nat, k: nat): (r: seq<seq<nat>>)
    ensures forall i :: 0 <= i < |r| ==> |r[i]| == k && Increasing(r[i]) && Within(r[i], lo, n)
    decreases n - lo
  {
    if k == 0 then [[]]
    else if lo >= n then []
    else
      var firsts := Combinations(lo + 1, n, k - 1);
      var rest := Combinations(lo + 1, n, k);
      assert forall i :: 0 <= i < |firsts| ==> Increasing([lo] + firsts[i]) by {
        forall i | 0 <= i < |firsts| ensures Increasing([lo] + firsts[i]) {
          ExtendIncreasing(lo, firsts[i], n);
        }
      }
      Prepend(lo, firsts) + rest
  }

  lemma {:induction false} ExtendIncreasing(x: nat, t: seq<nat>, n: nat)
    requires x < n && Increasing(t) && Within(t, x + 1, n)
    ensures Increasing([x] + t) && Within([x] + t, x, n)
  {
    var u := [x] + t;
    assert u[0] == x;
    forall i, j | 0 <= i < j < |u| ensures u[i] < u[j] {
      assert u[j] == t[j - 1];
      if i > 0 {
        assert u[i] == t[i - 1];
      }
    }
    forall i | 0 <= i < |u| ensures x <= u[i] < n {
      if i > 0 {
        assert u[i] == t[i - 1];
      }
    }
  }

  /** The binomial coefficient, by Pascal's rule. */
  function Binom(m: nat, k: nat): nat {
    if k == 0 then 1
    else if m == 0 then 0
    else Binom(m - 1, k - 1) + Binom(m - 1, k)
  }

  function Pow2(n: nat): nat {
    if n == 0 then 1 else 2 * Pow2(n - 1)
  }

  /** There are C(n - lo, k) combinations of size k. */
  lemma {:induction false} CombinationsCount(lo: nat, n: nat, k: nat)
    requires lo <= n
    ensures |Combinations(lo, n, k)| == Binom(n - lo, k)
    decreases n - lo
  {
    if k != 0 && lo < n {
      CombinationsCount(lo + 1, n, k - 1);
      CombinationsCount(lo + 1, n, k);
    }
  }

  lemma {:induction false} LexCons(x: nat, a: seq<nat>, b: seq<nat>)
    requires LexLess(a, b)
    ensures LexLess([x] + a, [x] + b)
  {
    assert ([x] + a)[1..] == a;
    assert ([x] + b)[1..] == b;
  }

  /** Strictly rising in lexicographic order, hence without repeats. */
  predicate LexSorted(c: seq<seq<nat>>) {
    forall i, j :: 0 <= i < j < |c| ==> LexLess(c[i], c[j])
  }

  /** Combinations come in strictly increasing lexicographic order. */
  lemma {:induction false} CombinationsSorted(lo: nat, n: nat, k: nat)
    ensures LexSorted(Combinations(lo, n, k))
    decreases n - lo
  {
    if k != 0 && lo < n {
      var firsts := Combinations(lo + 1, n, k - 1);
      var rest := Combinations(lo + 1, n, k);
      CombinationsSorted(lo + 1, n, k - 1);
      CombinationsSorted(lo + 1, n, k);
      var p := Prepend(lo, firsts);
      var c := p + rest;
      forall i, j | 0 <= i < j < |c| ensures LexLess(c[i], c[j]) {
        if j < |p| {
          assert LexLess(firsts[i], firsts[j]);
          LexCons(lo, firsts[i], firsts[j]);
          assert c[i] == [lo] + firsts[i] && c[j] == [lo] + firsts[j];
        } else if i < |p| {
          var b := rest[j - |p|];
          assert c[j] == b;
          assert |b| == k && b[0] >= lo + 1;
          assert c[i] == [lo] + firsts[i];
        } else {
          assert c[i] == rest[i - |p|] && c[j] == rest[j - |p|];
        }
      }
    }
  }

  /** Every increasing tuple of size k drawn from [lo, n) is listed. */
  lemma {:induction false} CombinationsComplete(lo: nat, n: nat, k: nat, t: seq<nat>)
    requires |t| == k && Increasing(t) && Within(t, lo, n)
    ensures t in Combinations(lo, n, k)
    decreases n - lo
  {
    if k == 0 {
      assert t == [];
    } else {
      TailWithin(t, lo, n);
      var firsts := Combinations(lo + 1, n, k - 1);
      var rest := Combinations(lo + 1, n, k);
      if t[0] == lo {
        CombinationsComplete(lo + 1, n, k - 1, t[1..]);
        PrependMember(lo, firsts, t);
      } else {
        CombinationsComplete(lo + 1, n, k, t);
      }
    }
  }

  /** Dropping the first position of an increasing tuple leaves one above it. */
  lemma TailWithin(t: seq<nat>, lo: nat, n: nat)
    requires t != [] && Increasing(t) && Within(t, lo, n)
    ensures lo <= t[0] < n
    ensures Increasing(t[1..]) && Within(t[1..], t[0] + 1, n)
    ensures t[0] != lo ==> Within(t, lo + 1, n)
  {
    var u := t[1..];
    forall i | 0 <= i < |u| ensures t[0] + 1 <= u[i] < n {
      assert u[i] == t[i + 1];
    }
    forall i, j | 0 <= i < j < |u| ensures u[i] < u[j] {
      assert u[i] == t[i + 1] && u[j] == t[j + 1];
    }
    if t[0] != lo {
      forall i | 0 <= i < |t| ensures lo + 1 <= t[i] < n {
        if i > 0 {
          assert t[0] < t[i];
        }
      }
    }
  }

  lemma PrependMember(x: nat, ts: seq<seq<nat>>, t: seq<nat>)
    requires t != [] && t[0] == x && t[1..] in ts
    ensures t in Prepend(x, ts)
  {
    var q :| 0 <= q < |ts| && ts[q] == t[1..];
    assert Prepend(x, ts)[q] == [x] + t[1..] == t;
  }

  /** No combination of more than n - lo positions exists. */
  lemma {:induction false} CombinationsTooMany(lo: nat, n: nat, k: nat)
    requires lo <= n && k > n - lo
    ensures Combinations(lo, n, k) == []
    decreases n - lo
  {
    if lo < n {
      CombinationsTooMany(lo + 1, n, k - 1);
      CombinationsTooMany(lo + 1, n, k);
    }
  }

  /** The positions lo, lo + 1, ..., n - 1. */
  function Range(lo: nat, n: nat): (r: seq<nat>)
    ensures |r| == if lo <= n then n - lo else 0
    ensures forall i :: 0 <= i < |r| ==> r[i] == lo + i
    decreases n - lo
  {
    if lo >= n then [] else [lo] + Range(lo + 1, n)
  }

  /** Taking all n - lo positions gives the single full tuple. */
  lemma {:induction false} CombinationsAll(lo: nat, n: nat)
    requires lo <= n
    ensures Combinations(lo, n, n - lo) == [Range(lo, n)]
    decreases n - lo
  {
    if lo < n {
      CombinationsAll(lo + 1, n);
      CombinationsTooMany(lo + 1, n, n - lo);
    }
  }

  /** The size blocks 0, 1, ..., m - 1, concatenated. */
  function Blocks(n: nat, m: nat): (r: seq<seq<nat>>)
    ensures forall i :: 0 <= i < |r| ==> |r[i]| < m && Increasing(r[i]) && Within(r[i], 0, n)
  {
    if m == 0 then [] else Blocks(n, m - 1) + Combinations(0, n, m - 1)
  }

  /** The index tuples `sigma_algebra` enumerates for an n-element list. */
  function SigmaIdx(n: nat): seq<seq<nat>> {
    Blocks(n, n + 1)
  }

  /** The elements of s at positions t, in the order of t. */
  function Select<T>(s: seq<T>, t: seq<nat>): (r: seq<T>)
    requires Within(t, 0, |s|)
    ensures |r| == |t|
    ensures forall i :: 0 <= i < |t| ==> r[i] == s[t[i]]
  {
    seq(|t|, i requires 0 <= i < |t| => s[t[i]])
  }

  /** `sigma_algebra(it)`. */
  function SigmaAlgebra<T>(s: seq<T>): (r: seq<seq<T>>)
    ensures |r| == |SigmaIdx(|s|)|
    ensures forall i :: 0 <= i < |r| ==> r[i] == Select(s, SigmaIdx(|s|)[i])
  {
    var idx := SigmaIdx(|s|);
    seq(|idx|, i requires 0 <= i < |idx| => Select(s, idx[i]))
  }

  /** The sum C(n, 0) + ... + C(n, m - 1). */
  function BinomSum(n: nat, m: nat): nat {
    if m == 0 then 0 else BinomSum(n, m - 1) + Binom(n, m - 1)
  }

  lemma {:induction false} BlocksCount(n: nat, m: nat)
    ensures |Blocks(n, m)| == BinomSum(n, m)
  {
    if m > 0 {
      BlocksCount(n, m - 1);
      CombinationsCount(0, n, m - 1);
    }
  }

  lemma {:induction false} BinomAbove(n: nat, k: nat)
    requires k > n
    ensures Binom(n, k) == 0
  {
    if n > 0 {
      BinomAbove(n - 1, k - 1);
      BinomAbove(n - 1, k);
    }
  }

  lemma {:induction false} BinomSumPascal(n: nat, m: nat)
    ensures BinomSum(n + 1, m + 1) == BinomSum(n, m) + BinomSum(n, m + 1)
  {
    if m > 0 {
      BinomSumPascal(n, m - 1);
    }
  }

  /** C(n, 0) + ... + C(n, n) == 2^n. */
  lemma {:induction false} BinomSumFull(n: nat)
    ensures BinomSum(n, n + 1) == Pow2(n)
  {
    if n > 0 {
      BinomSumFull(n - 1);
      BinomSumPascal(n - 1, n);
      BinomAbove(n - 1, n);
    }
  }

  /** The docstring's promise: an n-element list has 2^n sublists. */
  lemma SigmaAlgebraCount<T>(s: seq<T>)
    ensures |SigmaAlgebra(s)| == Pow2(|s|)
  {
    BlocksCount(|s|, |s| + 1);
    BinomSumFull(|s|);
  }

  /** Ordered by size first, then lexicographically. */
  predicate SizeLexSorted(b: seq<seq<nat>>) {
    forall i, j :: 0 <= i < j < |b| ==> |b[i]| < |b[j]| || (|b[i]| == |b[j]| && LexLess(b[i], b[j]))
  }

  /** Blocks come by size; within a size, in lexicographic order. */
  lemma {:induction false} BlocksOrder(n: nat, m: nat)
    ensures SizeLexSorted(Blocks(n, m))
  {
    if m > 0 {
      BlocksOrder(n, m - 1);
      CombinationsSorted(0, n, m - 1);
      var pre := Blocks(n, m - 1);
      var c := Combinations(0, n, m - 1);
      var b := pre + c;
      forall i, j | 0 <= i < j < |b|
        ensures |b[i]| < |b[j]| || (|b[i]| == |b[j]| && LexLess(b[i], b[j]))
      {
        if j < |pre| {
          assert b[i] == pre[i] && b[j] == pre[j];
        } else if i < |pre| {
          assert |b[i]| < m - 1 && b[j] == c[j - |pre|];
        } else {
          assert b[i] == c[i - |pre|] && b[j] == c[j - |pre|];
        }
      }
    }
  }

  /** Sublists come grouped by size 0, 1, ..., n: their lengths never
      decrease, and within a size the position tuples rise
      lexicographically. */
  lemma SigmaAlgebraOrder<T>(s: seq<T>)
    ensures var idx := SigmaIdx(|s|);
            var r := SigmaAlgebra(s);
            forall i, j :: 0 <= i < j < |r| ==>
              |r[i]| <= |r[j]| && (|r[i]| == |r[j]| ==> LexLess(idx[i], idx[j]))
  {
    BlocksOrder(|s|, |s| + 1);
    var idx := SigmaIdx(|s|);
    var r := SigmaAlgebra(s);
    assert forall i :: 0 <= i < |r| ==> |r[i]| == |idx[i]|;
  }

  lemma {:induction false} LexIrreflexive(a: seq<nat>)
    ensures !LexLess(a, a)
    decreases |a|
  {
    if a != [] {
      LexIrreflexive(a[1..]);
    }
  }

  /** No position tuple is listed twice. */
  lemma SigmaIdxDistinct(n: nat, i: nat, j: nat)
    requires i < j < |SigmaIdx(n)|
    ensures SigmaIdx(n)[i] != SigmaIdx(n)[j]
  {
    var b := SigmaIdx(n);
    BlocksOrder(n, n + 1);
    assert |b[i]| < |b[j]| || (|b[i]| == |b[j]| && LexLess(b[i], b[j]));
    LexIrreflexive(b[i]);
  }

  lemma {:induction false} IncreasingLower(t: seq<nat>, i: nat)
    requires Increasing(t) && i < |t|
    ensures t[i] >= i
  {
    if i > 0 {
      IncreasingLower(t, i - 1);
    }
  }

  lemma {:induction false} BlocksContain(n: nat, m: nat, t: seq<nat>)
    requires |t| < m && Increasing(t) && Within(t, 0, n)
    ensures t in Blocks(n, m)
  {
    if |t| == m - 1 {
      CombinationsComplete(0, n, m - 1, t);
    } else {
      BlocksContain(n, m - 1, t);
    }
  }

  /** "The set of all the subsets": a position tuple is listed exactly when
      it is strictly increasing and within the list. */
  lemma SigmaIdxComplete(n: nat, t: seq<nat>)
    ensures t in SigmaIdx(n) <==> Increasing(t) && Within(t, 0, n)
  {
    if Increasing(t) && Within(t, 0, n) {
      if t != [] {
        IncreasingLower(t, |t| - 1);
      }
      BlocksContain(n, n + 1, t);
    }
  }

  /** Every listed sublist keeps the input's order: it is the input at
      strictly increasing positions. */
  lemma SigmaAlgebraSubsequences<T>(s: seq<T>, i: nat)
    requires i < |SigmaAlgebra(s)|
    ensures exists t :: Increasing(t) && Within(t, 0, |s|) && SigmaAlgebra(s)[i] == Select(s, t)
  {
    var t := SigmaIdx(|s|)[i];
    assert Increasing(t) && Within(t, 0, |s|) && SigmaAlgebra(s)[i] == Select(s, t);
  }

  lemma {:induction false} BlocksFirst(n: nat, m: nat)
    requires m > 0
    ensures |Blocks(n, m)| > 0 && Blocks(n, m)[0] == []
  {
    if m > 1 {
      BlocksFirst(n, m - 1);
    }
  }

  /** The first sublist is [] and the last is the whole list. */
  lemma SigmaAlgebraEnds<T>(s: seq<T>)
    ensures var r := SigmaAlgebra(s);
            |r| > 0 && r[0] == [] && r[|r| - 1] == s
  {
    var idx := SigmaIdx(|s|);
    SigmaIdxEnds(|s|);
    assert Select(s, idx[|idx| - 1]) == s;
  }

  lemma {:induction false} SigmaIdxEnds(n: nat)
    ensures var idx := SigmaIdx(n);
            |idx| > 0 && idx[0] == [] && idx[|idx| - 1] == Range(0, n)
  {
    BlocksFirst(n, n + 1);
    CombinationsAll(0, n);
    var pre := Blocks(n, n);
    assert SigmaIdx(n) == pre + [Range(0, n)];
  }

  /** Python's `filter(p, xs)`, lazily consumed in order. */
  function Filter<T>(p: T -> bool, s: seq<T>): (r: seq<T>)
    ensures |r| <= |s|
  {
    if s == [] then []
    else
      var init := Filter(p, s[..|s| - 1]);
      if p(s[|s| - 1]) then init + [s[|s| - 1]] else init
  }

  /** `filter` keeps exactly the members that pass the predicate. */
  lemma {:induction false} FilterMembers<T>(p: T -> bool, s: seq<T>, x: T)
    ensures x in Filter(p, s) <==> x in s && p(x)
  {
    if s != [] {
      var init := s[..|s| - 1];
      FilterMembers(p, init, x);
      assert s == init + [s[|s| - 1]];
    }
  }

  /** The regressor sets `modelf` is called on: the sublists of `xs` that
      pass `filterxs`, so `filterxs` acts before any model is fitted. */
  function FittedSets(xs: seq<string>, filterxs: Option<seq<string> -> bool>): (r: seq<seq<string>>)
    ensures |r| <= |SigmaAlgebra(xs)|
    ensures forall x :: x in r ==> x in SigmaAlgebra(xs)
  {
    assert forall x :: x in FilterOpt(filterxs, SigmaAlgebra(xs)) ==> x in SigmaAlgebra(xs) by {
      if filterxs.Some? {
        forall x | x in FilterOpt(filterxs, SigmaAlgebra(xs)) ensures x in SigmaAlgebra(xs) {
          FilterMembers(filterxs.value, SigmaAlgebra(xs), x);
        }
      }
    }
    FilterOpt(filterxs, SigmaAlgebra(xs))
  }

  lemma FittedSetsMembers(xs: seq<string>, filterxs: Option<seq<string> -> bool>, x: seq<string>)
    ensures x in FittedSets(xs, filterxs) <==>
            x in SigmaAlgebra(xs) && (filterxs.None? || filterxs.value(x))
  {
    if filterxs.Some? {
      FilterMembers(filterxs.value, SigmaAlgebra(xs), x);
    }
  }

  /** A generator expression `(f(x) for x in xs)`. */
  function Map<T, U>(f: T -> U, s: seq<T>): (r: seq<U>)
    ensures |r| == |s|
    ensures forall i :: 0 <= i < |s| ==> r[i] == f(s[i])
  {
    seq(|s|, i requires 0 <= i < |s| => f(s[i]))
  }

  /** `filter(p, pool)` when p is not None, else the pool untouched. */
  function FilterOpt<T>(p: Option<T -> bool>, s: seq<T>): (r: seq<T>)
    ensures |r| <= |s|
  {
    if p.None? then s else Filter(p.value, s)
  }

  /** `estimate_models`: `fit(x)` stands for `modelf(data[y], data[x])`. */
  function EstimateModels<M>(xs: seq<string>, fit: seq<string> -> M,
                             filterxs: Option<seq<string> -> bool>,
                             filtermodels: Option<M -> bool>): (r: seq<M>)
    ensures |r| <= |FittedSets(xs, filterxs)| <= |SigmaAlgebra(xs)|
  {
    FilterOpt(filtermodels, Map(fit, FittedSets(xs, filterxs)))
  }

  /** A regressor set survives when it passes `filterxs` and its fitted model
      passes `filtermodels` (an absent filter passes everything). */
  predicate Survives<M>(fit: seq<string> -> M, filterxs: Option<seq<string> -> bool>,
                        filtermodels: Option<M -> bool>, x: seq<string>)
  {
    (filterxs.None? || filterxs.value(x)) && (filtermodels.None? || filtermodels.value(fit(x)))
  }

  /** The positions of the surviving sets in a pool, in increasing order. */
  function SurvivorIdx<M>(pool: seq<seq<string>>, fit: seq<string> -> M,
                          filterxs: Option<seq<string> -> bool>,
                          filtermodels: Option<M -> bool>): (r: seq<nat>)
    ensures Increasing(r) && Within(r, 0, |pool|)
    ensures forall i :: 0 <= i < |pool| ==> (i in r <==> Survives(fit, filterxs, filtermodels, pool[i]))
  {
    if pool == [] then []
    else
      var last := |pool| - 1;
      var init := SurvivorIdx(pool[..last], fit, filterxs, filtermodels);
      assert forall i :: 0 <= i < last ==> pool[..last][i] == pool[i];
      if Survives(fit, filterxs, filtermodels, pool[last]) then init + [last] else init
  }

  /** The pipeline over a pool, split at its last set. */
  lemma {:induction false} PipelineSnoc<M>(pool: seq<seq<string>>, fit: seq<string> -> M,
                                           filterxs: Option<seq<string> -> bool>,
                                           filtermodels: Option<M -> bool>)
    requires pool != []
    ensures var last := pool[|pool| - 1];
            FilterOpt(filtermodels, Map(fit, FilterOpt(filterxs, pool))) ==
            FilterOpt(filtermodels, Map(fit, FilterOpt(filterxs, pool[..|pool| - 1]))) +
            (if Survives(fit, filterxs, filtermodels, last) then [fit(last)] else [])
  {
    var init := pool[..|pool| - 1];
    var last := pool[|pool| - 1];
    var a := FilterOpt(filterxs, init);
    var passX := filterxs.None? || filterxs.value(last);
    assert pool == init + [last];
    assert FilterOpt(filterxs, pool) == a + (if passX then [last] else []);
    var ms := Map(fit, a);
    if passX {
      assert Map(fit, a + [last]) == ms + [fit(last)];
      if filtermodels.Some? {
        assert (ms + [fit(last)])[..|ms|] == ms;
      }
    }
  }

  /** The filtering order of `estimate_models`, over any pool: one model per
      surviving set, fitted to that set, in pool order. */
  lemma {:induction false} PipelineSurvivors<M>(pool: seq<seq<string>>, fit: seq<string> -> M,
                                                filterxs: Option<seq<string> -> bool>,
                                                filtermodels: Option<M -> bool>)
    ensures var r := FilterOpt(filtermodels, Map(fit, FilterOpt(filterxs, pool)));
            var k := SurvivorIdx(pool, fit, filterxs, filtermodels);
            |r| == |k| && forall j :: 0 <= j < |k| ==> r[j] == fit(pool[k[j]])
  {
    if pool != [] {
      var last := |pool| - 1;
      var init := pool[..last];
      PipelineSurvivors(init, fit, filterxs, filtermodels);
      PipelineSnoc(pool, fit, filterxs, filtermodels);
      var ri := FilterOpt(filtermodels, Map(fit, FilterOpt(filterxs, init)));
      var ki := SurvivorIdx(init, fit, filterxs, filtermodels);
      var surv := Survives(fit, filterxs, filtermodels, pool[last]);
      SurvivorStep(pool, fit, filterxs, filtermodels);
      PointwiseStep(pool, ri, ki, fit, surv);
    }
  }

  lemma {:induction false} SurvivorStep<M>(pool: seq<seq<string>>, fit: seq<string> -> M,
                                           filterxs: Option<seq<string> -> bool>,
                                           filtermodels: Option<M -> bool>)
    requires pool != []
    ensures var last := |pool| - 1;
            SurvivorIdx(pool, fit, filterxs, filtermodels) ==
            SurvivorIdx(pool[..last], fit, filterxs, filtermodels) +
            (if Survives(fit, filterxs, filtermodels, pool[last]) then [last] else [])
  {
  }

  lemma {:induction false} PointwiseStep<M>(pool: seq<seq<string>>, ri: seq<M>, ki: seq<nat>,
                                            fit: seq<string> -> M, surv: bool)
    requires pool != [] && |ri| == |ki|
    requires forall j :: 0 <= j < |ki| ==> ki[j] < |pool| - 1 && ri[j] == fit(pool[..|pool| - 1][ki[j]])
    ensures var last := |pool| - 1;
            var r := ri + (if surv then [fit(pool[last])] else []);
            var k := ki + (if surv then [last] else []);
            |r| == |k| && forall j :: 0 <= j < |k| ==> r[j] == fit(pool[k[j]])
  {
  }

  /** `estimate_models` yields, in `sigma_algebra` order, exactly one model
      per regressor set that passes `filterxs` and whose model passes
      `filtermodels`: the model fitted to that set. */
  lemma EstimateModelsSurvivors<M>(xs: seq<string>, fit: seq<string> -> M,
                                   filterxs: Option<seq<string> -> bool>,
                                   filtermodels: Option<M -> bool>)
    ensures var pool := SigmaAlgebra(xs);
            var r := EstimateModels(xs, fit, filterxs, filtermodels);
            var k := SurvivorIdx(pool, fit, filterxs, filtermodels);
            |r| == |k| && forall j :: 0 <= j < |k| ==> r[j] == fit(pool[k[j]])
  {
    PipelineSurvivors(SigmaAlgebra(xs), fit, filterxs, filtermodels);
  }

  /** Without filters, one model per sublist: 2^n models. */
  lemma EstimateModelsUnfiltered<M>(xs: seq<string>, fit: seq<string> -> M)
    ensures var r := EstimateModels(xs, fit, None, None);
            |r| == Pow2(|xs|) &&
            forall i :: 0 <= i < |r| ==> r[i] == fit(SigmaAlgebra(xs)[i])
  {
    SigmaAlgebraCount(xs);
  }
}
