/** The cells and rows of koala.py's in-memory table. A cell is None, a
    number, a string or a tuple (a list or tuple built by a caller's
    function, or a group key); `_row_as_dict` turns a row into a dict keyed
    by column name; `_listify` and `_flatten` normalise column arguments and
    group rows; and Python's ordering of the cells is what `sort` uses. */
module KoalaValues {
  import opened Wrappers
  import opened PyDict

  datatype Value = Null | Num(x: real) | Str(s: string) | Tup(items: seq<Value>)

  /** `_row_as_dict(row)`, the dict a caller's function is handed. */
  type RowDict = Dict<string, Value>

  /** A `str | list[str]` argument. */
  datatype StrS = One(name: string) | Many(names: seq<string>)

  /** `_listify(s)`. */
  function Listify(s: StrS): (r: seq<string>)
    ensures s.One? ==> r == [s.name]
    ensures s.Many? ==> r == s.names
  {
    match s
    case One(n) => [n]
    case Many(ns) => ns
  }

  // ----- _flatten -----

  predicate Flat(xs: seq<Value>) {
    forall i :: 0 <= i < |xs| ==> !xs[i].Tup?
  }

  /** The result of `_flatten(xs)`: the leaves of nested tuples, in order. */
  function Flattened(xs: seq<Value>): (r: seq<Value>)
    ensures Flat(r)
    decreases xs
  {
    if xs == [] then []
    else
      var last := xs[|xs| - 1];
      Flattened(xs[..|xs| - 1]) + (if last.Tup? then Flattened(last.items) else [last])
  }

  /** A flat sequence is its own flattening. */
  lemma {:induction false} FlattenedFlat(xs: seq<Value>)
    requires Flat(xs)
    ensures Flattened(xs) == xs
  {
    if xs != [] {
      FlattenedFlat(xs[..|xs| - 1]);
    }
  }

  lemma {:induction false} FlattenedAppend(a: seq<Value>, b: seq<Value>)
    ensures Flattened(a + b) == Flattened(a) + Flattened(b)
    decreases |b|
  {
    if b == [] {
      assert a + b == a;
    } else {
      var init := b[..|b| - 1];
      var last := b[|b| - 1];
      var tail := if last.Tup? then Flattened(last.items) else [last];
      assert (a + b)[..|a + b| - 1] == a + init;
      assert (a + b)[|a + b| - 1] == last;
      assert Flattened(a + b) == Flattened(a + init) + tail;
      FlattenedAppend(a, init);
      assert Flattened(b) == Flattened(init) + tail;
    }
  }

  /** `_flatten(xs)`: extend by the flattening of each tuple, append the rest. */
  method Flatten(xs: seq<Value>) returns (res: seq<Value>)
    ensures res == Flattened(xs)
    decreases xs
  {
    res := [];
    for i := 0 to |xs|
      invariant res == Flattened(xs[..i])
    {
      assert xs[..i + 1][..i] == xs[..i];
      if xs[i].Tup? {
        var inner := Flatten(xs[i].items);
        res := res + inner;
      } else {
        res := res + [xs[i]];
      }
    }
    assert xs[..|xs|] == xs;
  }

  // ----- _row_as_dict -----

  /** `zip(cols, row)`: pairs up to the shorter length. */
  function Zip(cols: seq<string>, row: seq<Value>): (ps: seq<(string, Value)>)
    ensures |ps| == if |cols| < |row| then |cols| else |row|
    ensures forall i :: 0 <= i < |ps| ==> ps[i] == (cols[i], row[i])
  {
    var n := if |cols| < |row| then |cols| else |row|;
    seq(n, i requires 0 <= i < n => (cols[i], row[i]))
  }

  /** `_row_as_dict(row)`: `dict(zip(self._cols, row))`. */
  function RowAsDict(cols: seq<string>, row: seq<Value>): (d: RowDict)
    ensures DistinctKeys(d)
  {
    FromPairs(Zip(cols, row))
  }

  /** With distinct column names, the dict maps each column to its cell. */
  lemma RowAsDictLookup(cols: seq<string>, row: seq<Value>, i: nat)
    requires |row| == |cols| && i < |cols|
    requires forall j :: 0 <= j < |cols| && j != i ==> cols[j] != cols[i]
    ensures Get(RowAsDict(cols, row), cols[i]) == Some(row[i])
  {
    var ps := Zip(cols, row);
    forall j | i < j < |ps| ensures ps[j].0 != cols[i] { }
    FromPairsLast(ps, i);
  }

  /** Extra column names beyond the row's length do not change the dict. */
  lemma RowAsDictTruncates(cols: seq<string>, extra: seq<string>, row: seq<Value>)
    requires |row| <= |cols|
    ensures RowAsDict(cols + extra, row) == RowAsDict(cols, row)
  {
    assert Zip(cols + extra, row) == Zip(cols, row);
  }

  // ----- Python's ordering of cells -----

  /** Cells of different kinds are ordered by kind (Python raises TypeError
      instead; see the README). */
  function Rank(v: Value): int {
    match v
    case Null => 0
    case Num(_) => 1
    case Str(_) => 2
    case Tup(_) => 3
  }

  /** `a <= b` on strings: code point by code point, a prefix first. */
  predicate StrLe(a: string, b: string) {
    a == [] || (b != [] && (a[0] < b[0] || (a[0] == b[0] && StrLe(a[1..], b[1..]))))
  }

  /** `a <= b` on cells. */
  predicate ValueLe(a: Value, b: Value)
    decreases a
  {
    if Rank(a) != Rank(b) then Rank(a) < Rank(b)
    else match a
      case Null => true
      case Num(x) => x <= b.x
      case Str(s) => StrLe(s, b.s)
      case Tup(xs) => SeqLe(xs, b.items)
  }

  /** `a <= b` on lists: at the first differing position, or by length. */
  predicate SeqLe(a: seq<Value>, b: seq<Value>)
    decreases a
  {
    a == [] || (b != [] && (if a[0] == b[0] then SeqLe(a[1..], b[1..]) else ValueLe(a[0], b[0])))
  }

  lemma {:induction false} StrLeTotal(a: string, b: string)
    ensures StrLe(a, b) || StrLe(b, a)
    ensures StrLe(a, b) && StrLe(b, a) ==> a == b
  {
    if a != [] && b != [] && a[0] == b[0] {
      StrLeTotal(a[1..], b[1..]);
      assert a == [a[0]] + a[1..] && b == [b[0]] + b[1..];
    }
  }

  lemma {:induction false} StrLeTrans(a: string, b: string, c: string)
    requires StrLe(a, b) && StrLe(b, c)
    ensures StrLe(a, c)
  {
    if a != [] && b != [] && c != [] && a[0] == b[0] && b[0] == c[0] {
      StrLeTrans(a[1..], b[1..], c[1..]);
    }
  }

  lemma {:induction false} ValueLeTotal(a: Value, b: Value)
    ensures ValueLe(a, b) || ValueLe(b, a)
    ensures ValueLe(a, b) && ValueLe(b, a) ==> a == b
    decreases a
  {
    if Rank(a) == Rank(b) {
      match a
      case Null =>
      case Num(_) =>
      case Str(s) => StrLeTotal(s, b.s);
      case Tup(xs) => SeqLeTotal(xs, b.items);
    }
  }

  lemma {:induction false} SeqLeTotal(a: seq<Value>, b: seq<Value>)
    ensures SeqLe(a, b) || SeqLe(b, a)
    ensures SeqLe(a, b) && SeqLe(b, a) ==> a == b
    decreases a
  {
    if a != [] && b != [] {
      if a[0] == b[0] {
        SeqLeTotal(a[1..], b[1..]);
        assert a == [a[0]] + a[1..] && b == [b[0]] + b[1..];
      } else {
        ValueLeTotal(a[0], b[0]);
      }
    }
  }

  lemma {:induction false} ValueLeTrans(a: Value, b: Value, c: Value)
    requires ValueLe(a, b) && ValueLe(b, c)
    ensures ValueLe(a, c)
    decreases a
  {
    if Rank(a) == Rank(b) == Rank(c) {
      match a
      case Null =>
      case Num(_) =>
      case Str(s) => StrLeTrans(s, b.s, c.s);
      case Tup(xs) => SeqLeTrans(xs, b.items, c.items);
    }
  }

  lemma {:induction false} SeqLeTrans(a: seq<Value>, b: seq<Value>, c: seq<Value>)
    requires SeqLe(a, b) && SeqLe(b, c)
    ensures SeqLe(a, c)
    decreases a
  {
    if a != [] && b != [] && c != [] {
      if a[0] == b[0] && b[0] == c[0] {
        SeqLeTrans(a[1..], b[1..], c[1..]);
      } else if a[0] == b[0] {
        // b[0] != c[0], so the order of b and c decides
      } else if b[0] == c[0] {
      } else {
        ValueLeTrans(a[0], b[0], c[0]);
        if a[0] == c[0] {
          ValueLeTotal(a[0], b[0]);
        }
      }
    }
  }
}
