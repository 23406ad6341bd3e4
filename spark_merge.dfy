/** The bookkeeping of spark_merge.py that does not touch Spark: the suffixed
    column names, the normalisation of the join keys, and the decision tables
    of the argument check and of the `validate` option. A Spark DataFrame is
    seen only through its list of column names, and the uniqueness of the
    merge keys on each side is given as a boolean. */
module SparkMerge {
  import opened Wrappers
  import opened PyDict

  /** The exceptions the modelled code raises. */
  datatype MErr = TypeError | ValueError | AssertionError | SparkMergeError(msg: string)

  /** A Python value passed as an argument. `OtherA` stands for any other
      object that is neither iterable nor equal to anything else here. */
  datatype Arg =
    | NoneA
    | BoolA(b: bool)
    | IntA(i: int)
    | StrA(s: string)
    | ListA(items: seq<Arg>)
    | TupleA(items: seq<Arg>)
    | OtherA(id: nat)

  /** The `left` and `right` arguments: a DataFrame or something else. */
  datatype FrameArg = SparkDF(columns: seq<string>) | NotDF

  /** Python truthiness. */
  predicate Truthy(a: Arg) {
    match a
    case NoneA => false
    case BoolA(b) => b
    case IntA(i) => i != 0
    case StrA(s) => s != ""
    case ListA(items) => items != []
    case TupleA(items) => items != []
    case OtherA(_) => true
  }

  /** Python `==`: `True == 1` and `False == 0`; lists and tuples compare
      item by item and never equal each other. */
  predicate PyEq(a: Arg, b: Arg)
    decreases a
  {
    match a
    case BoolA(x) => (b.BoolA? && b.b == x) || (b.IntA? && b.i == (if x then 1 else 0))
    case IntA(i) => (b.IntA? && b.i == i) || (b.BoolA? && i == (if b.b then 1 else 0))
    case ListA(xs) => b.ListA? && |xs| == |b.items| && forall k :: 0 <= k < |xs| ==> PyEq(xs[k], b.items[k])
    case TupleA(xs) => b.TupleA? && |xs| == |b.items| && forall k :: 0 <= k < |xs| ==> PyEq(xs[k], b.items[k])
    case _ => a == b
  }

  // ---------------------------------------------------------------------
  // ColumnNames and ColumnManager

  /** `ColumnNames`: the original names and the suffix they are given. */
  datatype ColumnNames = ColumnNames(oldNames: seq<string>, suffix: string) {

    /** `new_names`. */
    function NewNames(): (r: seq<string>)
      ensures |r| == |oldNames|
      ensures forall i :: 0 <= i < |r| ==> r[i] == oldNames[i] + suffix
    {
      seq(|oldNames|, i requires 0 <= i < |oldNames| => oldNames[i] + suffix)
    }

    /** `old_to_new`: a dict comprehension over the zipped names. */
    function OldToNew(): (r: Dict<string, string>)
      ensures DistinctKeys(r)
      ensures forall k :: Get(r, k).Some? <==> k in oldNames
      ensures forall k :: Get(r, k).Some? ==> Get(r, k).value == k + suffix
    {
      var ps := Pairs(oldNames, NewNames());
      assert forall k :: Get(FromPairs(ps), k).Some? <==> k in oldNames by {
        forall k ensures Get(FromPairs(ps), k).Some? <==> k in oldNames {
          if k in oldNames {
            var j :| 0 <= j < |oldNames| && oldNames[j] == k;
            FromPairsPresent(ps, j, k);
          } else {
            FromPairsAbsent(ps, k);
          }
        }
      }
      assert forall k :: Get(FromPairs(ps), k).Some? ==> Get(FromPairs(ps), k).value == k + suffix by {
        forall k | Get(FromPairs(ps), k).Some? ensures Get(FromPairs(ps), k).value == k + suffix {
          FromPairsFrom(ps, k);
        }
      }
      FromPairs(ps)
    }

    /** `new_to_old`: `old_to_new` with keys and values swapped. */
    function NewToOld(): (r: Dict<string, string>)
      ensures DistinctKeys(r)
      ensures forall n :: Get(r, n).Some? ==> Get(OldToNew(), Get(r, n).value) == Some(n)
    {
      var o2n := OldToNew();
      var qs := Pairs(Values(o2n), Keys(o2n));
      assert forall n :: Get(FromPairs(qs), n).Some? ==> Get(o2n, Get(FromPairs(qs), n).value) == Some(n) by {
        forall n | Get(FromPairs(qs), n).Some? ensures Get(o2n, Get(FromPairs(qs), n).value) == Some(n) {
          FromPairsFrom(qs, n);
          var j :| 0 <= j < |qs| && qs[j] == (n, Get(FromPairs(qs), n).value);
          GetAt(o2n, j);
        }
      }
      FromPairs(qs)
    }
  }

  /** `zip(a, b)` of two lists of the same length. */
  function Pairs(a: seq<string>, b: seq<string>): (r: seq<(string, string)>)
    requires |a| == |b|
    ensures |r| == |a|
    ensures forall i :: 0 <= i < |r| ==> r[i] == (a[i], b[i])
  {
    seq(|a|, i requires 0 <= i < |a| => (a[i], b[i]))
  }

  function Values(d: Dict<string, string>): (r: seq<string>)
    ensures |r| == |d|
    ensures forall i :: 0 <= i < |d| ==> r[i] == d[i].1
  {
    seq(|d|, i requires 0 <= i < |d| => d[i].1)
  }

  predicate Distinct(names: seq<string>) {
    forall i, j :: 0 <= i < j < |names| ==> names[i] != names[j]
  }

  lemma SuffixKeepsApart(a: string, b: string, suffix: string)
    requires a != b
    ensures a + suffix != b + suffix
  {
    assert a == (a + suffix)[..|a|];
    assert b == (b + suffix)[..|b|];
  }

  /** Appending the same suffix keeps distinct names distinct. */
  lemma NewNamesDistinct(cn: ColumnNames)
    requires Distinct(cn.oldNames)
    ensures Distinct(cn.NewNames())
  {
    var nn := cn.NewNames();
    forall i, j | 0 <= i < j < |nn| ensures nn[i] != nn[j] {
      SuffixKeepsApart(cn.oldNames[i], cn.oldNames[j], cn.suffix);
    }
  }

  /** With distinct old names, both dicts keep every pair of the zip. */
  lemma NamesDictsArePairs(cn: ColumnNames)
    requires Distinct(cn.oldNames)
    ensures cn.OldToNew() == Pairs(cn.oldNames, cn.NewNames())
    ensures cn.NewToOld() == Pairs(cn.NewNames(), cn.oldNames)
  {
    var nn := cn.NewNames();
    NewNamesDistinct(cn);
    PairsDistinctKeys(cn.oldNames, nn);
    FromPairsDistinct(Pairs(cn.oldNames, nn));
    PairsUnzip(cn.oldNames, nn);
    PairsDistinctKeys(nn, cn.oldNames);
    FromPairsDistinct(Pairs(nn, cn.oldNames));
  }

  /** Zipping distinct names with anything gives distinct keys. */
  lemma PairsDistinctKeys(a: seq<string>, b: seq<string>)
    requires |a| == |b| && Distinct(a)
    ensures DistinctKeys(Pairs(a, b))
  {
  }

  /** The zip's keys and values are the two lists. */
  lemma PairsUnzip(a: seq<string>, b: seq<string>)
    requires |a| == |b|
    ensures Keys(Pairs(a, b)) == a && Values(Pairs(a, b)) == b
  {
    KeysPairs(a, b);
    assert Values(Pairs(a, b)) == b;
  }

  lemma KeysPairs(a: seq<string>, b: seq<string>)
    requires |a| == |b|
    ensures Keys(Pairs(a, b)) == a
  {
  }

  /** With distinct old names, `old_to_new` has the old names as keys and
      `new_to_old` the new names, each in list order. */
  lemma NamesDictsKeys(cn: ColumnNames)
    requires Distinct(cn.oldNames)
    ensures Keys(cn.OldToNew()) == cn.oldNames
    ensures Keys(cn.NewToOld()) == cn.NewNames()
  {
    NamesDictsArePairs(cn);
    KeysPairs(cn.oldNames, cn.NewNames());
    KeysPairs(cn.NewNames(), cn.oldNames);
  }

  /** With distinct old names, `old_to_new` sends each old name to its
      suffixed form and `new_to_old` sends it back. */
  lemma OldToNewAt(cn: ColumnNames, i: nat)
    requires Distinct(cn.oldNames) && i < |cn.oldNames|
    ensures Get(cn.OldToNew(), cn.oldNames[i]) == Some(cn.oldNames[i] + cn.suffix)
    ensures Get(cn.NewToOld(), cn.oldNames[i] + cn.suffix) == Some(cn.oldNames[i])
  {
    NamesDictsArePairs(cn);
    var ps := Pairs(cn.oldNames, cn.NewNames());
    var qs := Pairs(cn.NewNames(), cn.oldNames);
    NewNamesDistinct(cn);
    GetAt(ps, i);
    GetAt(qs, i);
  }

  /** With distinct old names, `new_to_old` is the inverse of `old_to_new`. */
  lemma OldToNewInverse(cn: ColumnNames, o: string, n: string)
    requires Distinct(cn.oldNames)
    ensures Get(cn.OldToNew(), o) == Some(n) <==> Get(cn.NewToOld(), n) == Some(o)
  {
    NamesDictsArePairs(cn);
    SwapGet(Pairs(cn.oldNames, cn.NewNames()), Pairs(cn.NewNames(), cn.oldNames), o, n);
  }

  lemma SwapGet(ps: seq<(string, string)>, qs: seq<(string, string)>, o: string, n: string)
    requires |ps| == |qs| && DistinctKeys(ps) && DistinctKeys(qs)
    requires forall i :: 0 <= i < |ps| ==> qs[i] == (ps[i].1, ps[i].0)
    ensures Get(ps, o) == Some(n) <==> Get(qs, n) == Some(o)
  {
    if Get(ps, o) == Some(n) {
      var i :| 0 <= i < |ps| && ps[i] == (o, n);
      GetAt(qs, i);
    }
    if Get(qs, n) == Some(o) {
      var i :| 0 <= i < |qs| && qs[i] == (n, o);
      GetAt(ps, i);
    }
  }

  /** `ColumnManager`: the names of the left and of the right table. */
  datatype ColumnManager = ColumnManager(left: ColumnNames, right: ColumnNames) {

    /** `common_cols_old`: a frozenset intersection. */
    function CommonColsOld(): (r: set<string>)
      ensures forall c :: c in r <==> c in left.oldNames && c in right.oldNames
    {
      (set c | c in left.oldNames) * (set c | c in right.oldNames)
    }

    /** `new_names_zip`: `zip` stops at the shorter list. */
    function NewNamesZip(): (r: seq<(string, string)>)
      ensures |r| == Min(|left.oldNames|, |right.oldNames|)
      ensures forall i :: 0 <= i < |r| ==> r[i] == (left.NewNames()[i], right.NewNames()[i])
    {
      var l := left.NewNames();
      var rn := right.NewNames();
      seq(Min(|l|, |rn|), i requires 0 <= i < Min(|l|, |rn|) => (l[i], rn[i]))
    }
  }

  function Min(a: nat, b: nat): nat {
    if a <= b then a else b
  }

  /** `get_indicator_cols_names`: the suffixed join keys of both sides,
      each with `_indicator` appended, paired position by position. */
  function IndicatorColsNames(jcm: ColumnManager): (r: seq<(string, string)>)
    ensures |r| == Min(|jcm.left.oldNames|, |jcm.right.oldNames|)
    ensures forall i :: 0 <= i < |r| ==>
              r[i] == (jcm.left.oldNames[i] + jcm.left.suffix + "_indicator",
                       jcm.right.oldNames[i] + jcm.right.suffix + "_indicator")
  {
    var z := jcm.NewNamesZip();
    seq(|z|, i requires 0 <= i < |z| => (z[i].0 + "_indicator", z[i].1 + "_indicator"))
  }

  // ---------------------------------------------------------------------
  // Join keys

  /** `_listify`: a string becomes a one-element list, a list of strings is
      kept; anything else fails one of the assertions. */
  function Listify(a: Arg): (r: Result<seq<string>, MErr>)
    ensures r.Err? ==> r.error == AssertionError
    ensures r.Ok? <==> a.StrA? || (a.ListA? && forall i :: 0 <= i < |a.items| ==> a.items[i].StrA?)
    ensures a.StrA? ==> r == Ok([a.s])
    ensures r.Ok? && a.ListA? ==> |r.value| == |a.items| && forall i :: 0 <= i < |a.items| ==> a.items[i] == StrA(r.value[i])
  {
    match a
    case StrA(s) => Ok([s])
    case ListA(items) =>
      if forall i :: 0 <= i < |items| ==> items[i].StrA? then
        Ok(seq(|items|, i requires 0 <= i < |items| && items[i].StrA? => items[i].s))
      else Err(AssertionError)
    case _ => Err(AssertionError)
  }

  /** `len(a)`. */
  function PyLen(a: Arg): (r: Result<nat, MErr>)
    ensures r.Ok? <==> a.StrA? || a.ListA? || a.TupleA?
    ensures a.StrA? ==> r == Ok(|a.s|)
    ensures a.ListA? || a.TupleA? ==> r == Ok(|a.items|)
  {
    match a
    case StrA(s) => Ok(|s|)
    case ListA(items) => Ok(|items|)
    case TupleA(items) => Ok(|items|)
    case _ => Err(TypeError)
  }

  /** `listify_join_syntax` as written: without `on`, the lengths are compared
      before the keys are listified. With `on`, both sides get the same list;
      without it, the call succeeds only for arguments of equal `len`, which
      for a bare string is its number of characters. */
  function ListifyJoinSyntax(on: Arg, leftOn: Arg, rightOn: Arg): (r: Result<(seq<string>, seq<string>), MErr>)
    ensures !on.NoneA? ==> (r.Ok? <==> Listify(on).Ok?) && (r.Ok? ==> r.value.0 == r.value.1 && Listify(on) == Ok(r.value.0))
    ensures on.NoneA? && r.Ok? ==> PyLen(leftOn) == PyLen(rightOn) &&
                                   Listify(leftOn) == Ok(r.value.0) && Listify(rightOn) == Ok(r.value.1)
  {
    if !on.NoneA? then
      var keys :- Listify(on);
      Ok((keys, keys))
    else
      var n :- PyLen(leftOn);
      var m :- PyLen(rightOn);
      if n != m then Err(ValueError)
      else
        var l :- Listify(leftOn);
        var r :- Listify(rightOn);
        Ok((l, r))
  }

  /** Two single-column keys whose names differ in length are refused, and a
      one-name string next to a two-name list passes with lists of different
      lengths. */
  lemma ListifyLengthMismatch()
    ensures ListifyJoinSyntax(NoneA, StrA("id"), StrA("key")) == Err(ValueError)
    ensures var r := ListifyJoinSyntax(NoneA, StrA("ab"), ListA([StrA("x"), StrA("y")]));
            r.Ok? && |r.value.0| == 1 && |r.value.1| == 2
  {
    assert Listify(ListA([StrA("x"), StrA("y")])).value == ["x", "y"];
  }

  /** `listify_join_syntax` comparing the listified keys, as its error message
      intends. */
  function ListifyJoinSyntaxChecked(on: Arg, leftOn: Arg, rightOn: Arg): (r: Result<(seq<string>, seq<string>), MErr>)
    ensures r.Ok? ==> |r.value.0| == |r.value.1|
    ensures on.NoneA? && Listify(leftOn).Ok? && Listify(rightOn).Ok? ==>
              (r.Ok? <==> |Listify(leftOn).value| == |Listify(rightOn).value|)
  {
    if !on.NoneA? then
      var keys :- Listify(on);
      Ok((keys, keys))
    else
      var l :- Listify(leftOn);
      var r :- Listify(rightOn);
      if |l| != |r| then Err(ValueError) else Ok((l, r))
  }

  // ---------------------------------------------------------------------
  // `_validate_inputs`

  /** An item a frozenset can hold. */
  predicate Hashable(a: Arg)
    decreases a
  {
    match a
    case ListA(_) => false
    case TupleA(xs) => forall k :: 0 <= k < |xs| ==> Hashable(xs[k])
    case _ => true
  }

  /** `frozenset(a).issubset(columns)`, with the code's own check: a string
      is the set of its characters. */
  function KeysWithin(a: Arg, columns: seq<string>): (r: Result<bool, MErr>)
    ensures r.Err? ==> r.error == TypeError
    ensures a.StrA? ==> r == Ok(forall i :: 0 <= i < |a.s| ==> [a.s[i]] in columns)
  {
    match a
    case StrA(s) => Ok(forall i :: 0 <= i < |s| ==> [s[i]] in columns)
    case ListA(items) => ItemsWithin(items, columns)
    case TupleA(items) => ItemsWithin(items, columns)
    case _ => Err(TypeError)
  }

  function ItemsWithin(items: seq<Arg>, columns: seq<string>): (r: Result<bool, MErr>)
    ensures r.Err? ==> r.error == TypeError
    ensures r.Ok? <==> forall i :: 0 <= i < |items| ==> Hashable(items[i])
    ensures r.Ok? ==> (r.value <==> forall i :: 0 <= i < |items| ==> items[i].StrA? && items[i].s in columns)
  {
    if forall i :: 0 <= i < |items| ==> Hashable(items[i]) then
      Ok(forall i :: 0 <= i < |items| ==> items[i].StrA? && items[i].s in columns)
    else Err(TypeError)
  }

  /** The same check made name by name on the listified keys, as the error
      message ("not all column names ... are present") intends. */
  function KeysWithinChecked(a: Arg, columns: seq<string>): (r: Result<bool, MErr>)
    ensures r.Ok? && r.value ==> Listify(a).Ok? && forall i :: 0 <= i < |Listify(a).value| ==> Listify(a).value[i] in columns
  {
    match a
    case StrA(s) => Ok(s in columns)
    case ListA(items) =>
      var w :- ItemsWithin(items, columns);
      if w then
        assert forall i :: 0 <= i < |items| ==> items[i].StrA?;
        var l := Listify(a).value;
        assert forall i :: 0 <= i < |l| ==> items[i] == StrA(l[i]);
        Ok(true)
      else Ok(false)
    case TupleA(items) => Ok(false)
    case _ => Err(TypeError)
  }

  const OnConflictMsg: string := "the options 'on' and 'left_on, right_on' are mutually exclusive. please choose only one"

  const Validators: seq<string> := ["one_to_one", "1:1", "one_to_many", "1:m", "many_to_one", "m:1", "many_to_many", "m:m"]

  /** `validate in _validators`: `None` or one of the strings. */
  predicate ValidValidate(v: Arg) {
    v.NoneA? || (v.StrA? && v.s in Validators)
  }

  /** `_validate_inputs`, with the subset test of the key columns as a
      parameter (`KeysWithin` is the code as written). */
  function ValidateInputsWith(within: (Arg, seq<string>) -> Result<bool, MErr>,
                              left: FrameArg, right: FrameArg, on: Arg, leftOn: Arg, rightOn: Arg,
                              sort: Arg, suffixes: Arg, indicator: Arg, validate: Arg): (r: Result<(), MErr>)
    ensures r.Ok? ==> left.SparkDF? && right.SparkDF? && ValidateOptions(sort, suffixes, indicator, validate) == Ok(())
  {
    if !left.SparkDF? || !right.SparkDF? then Err(TypeError)
    else if (Truthy(on) && Truthy(leftOn)) || (Truthy(on) && Truthy(rightOn)) then Err(SparkMergeError(OnConflictMsg))
    else if !on.NoneA? && !(on.StrA? || on.ListA?) then Err(TypeError)
    else if !leftOn.NoneA? then
      var inLeft :- within(leftOn, left.columns);
      if !inLeft then Err(ValueError)
      else if rightOn.NoneA? then Err(ValueError)
      else
        var inRight :- within(rightOn, right.columns);
        if !inRight then Err(ValueError)
        else ValidateOptions(sort, suffixes, indicator, validate)
    else if !rightOn.NoneA? then Err(ValueError)
    else if on.NoneA? then Err(ValueError)
    else ValidateOptions(sort, suffixes, indicator, validate)
  }

  /** The checks of `_validate_inputs` after the join keys. */
  function ValidateOptions(sort: Arg, suffixes: Arg, indicator: Arg, validate: Arg): (r: Result<(), MErr>)
    ensures r.Err? ==> r.error == TypeError || r.error == ValueError
  {
    if !sort.BoolA? then Err(TypeError)
    else if !(suffixes.TupleA? || suffixes.ListA?) then Err(TypeError)
    else if |suffixes.items| != 2 then Err(ValueError)
    else if PyEq(suffixes.items[0], suffixes.items[1]) then Err(ValueError)
    else if !(suffixes.items[0].StrA? && suffixes.items[1].StrA?) then Err(TypeError)
    else if !indicator.BoolA? then Err(TypeError)
    // The message joins `_validators`, whose first element is `None`, so
    // building it raises a TypeError before the ValueError can be raised.
    else if !ValidValidate(validate) then Err(TypeError)
    else Ok(())
  }

  /** `_validate_inputs` as written. */
  function ValidateInputs(left: FrameArg, right: FrameArg, on: Arg, leftOn: Arg, rightOn: Arg,
                          sort: Arg, suffixes: Arg, indicator: Arg, validate: Arg): (r: Result<(), MErr>)
    ensures r.Err? ==> r.error == TypeError || r.error == ValueError || r.error == SparkMergeError(OnConflictMsg)
  {
    ValidateInputsWith(KeysWithin, left, right, on, leftOn, rightOn, sort, suffixes, indicator, validate)
  }

  /** The suffixes are a list or tuple of two different strings. */
  predicate SuffixesOk(suffixes: Arg) {
    (suffixes.TupleA? || suffixes.ListA?) && |suffixes.items| == 2 &&
    suffixes.items[0].StrA? && suffixes.items[1].StrA? && suffixes.items[0].s != suffixes.items[1].s
  }

  /** Everything `_validate_inputs` demands, stated without its order. */
  predicate InputsAccepted(within: (Arg, seq<string>) -> Result<bool, MErr>,
                           left: FrameArg, right: FrameArg, on: Arg, leftOn: Arg, rightOn: Arg,
                           sort: Arg, suffixes: Arg, indicator: Arg, validate: Arg)
  {
    left.SparkDF? && right.SparkDF? &&
    !(Truthy(on) && (Truthy(leftOn) || Truthy(rightOn))) &&
    (on.NoneA? || on.StrA? || on.ListA?) &&
    (leftOn.NoneA? <==> rightOn.NoneA?) &&
    (!leftOn.NoneA? ==> within(leftOn, left.columns) == Ok(true) && within(rightOn, right.columns) == Ok(true)) &&
    !(on.NoneA? && leftOn.NoneA?) &&
    sort.BoolA? && SuffixesOk(suffixes) && indicator.BoolA? && ValidValidate(validate)
  }

  lemma ValidateOptionsOk(sort: Arg, suffixes: Arg, indicator: Arg, validate: Arg)
    ensures ValidateOptions(sort, suffixes, indicator, validate) == Ok(()) <==>
            sort.BoolA? && SuffixesOk(suffixes) && indicator.BoolA? && ValidValidate(validate)
  {
    if (suffixes.TupleA? || suffixes.ListA?) && |suffixes.items| == 2 &&
       suffixes.items[0].StrA? && suffixes.items[1].StrA? {
      assert PyEq(suffixes.items[0], suffixes.items[1]) <==> suffixes.items[0].s == suffixes.items[1].s;
    }
  }

  /** The arguments pass exactly when every demand holds. */
  lemma ValidateInputsAccepts(within: (Arg, seq<string>) -> Result<bool, MErr>,
                              left: FrameArg, right: FrameArg, on: Arg, leftOn: Arg, rightOn: Arg,
                              sort: Arg, suffixes: Arg, indicator: Arg, validate: Arg)
    ensures ValidateInputsWith(within, left, right, on, leftOn, rightOn, sort, suffixes, indicator, validate) == Ok(()) <==>
            InputsAccepted(within, left, right, on, leftOn, rightOn, sort, suffixes, indicator, validate)
  {
    ValidateOptionsOk(sort, suffixes, indicator, validate);
  }

  /** Which error comes first: a non-DataFrame table is a TypeError; `on`
      together with `left_on` or `right_on` is a SparkMergeError. */
  lemma ValidateInputsErrors(within: (Arg, seq<string>) -> Result<bool, MErr>,
                             left: FrameArg, right: FrameArg, on: Arg, leftOn: Arg, rightOn: Arg,
                             sort: Arg, suffixes: Arg, indicator: Arg, validate: Arg)
    requires forall a, cs :: within(a, cs).Err? ==> within(a, cs).error == TypeError
    ensures var r := ValidateInputsWith(within, left, right, on, leftOn, rightOn, sort, suffixes, indicator, validate);
            (!left.SparkDF? || !right.SparkDF? ==> r == Err(TypeError)) &&
            (left.SparkDF? && right.SparkDF? && Truthy(on) && (Truthy(leftOn) || Truthy(rightOn)) ==>
               r == Err(SparkMergeError(OnConflictMsg)))
  {
  }

  /** Only one of `left_on`/`right_on` is an error (a ValueError unless the
      key given is not iterable); giving no key at all is a ValueError. */
  lemma ValidateInputsKeyErrors(within: (Arg, seq<string>) -> Result<bool, MErr>,
                             left: FrameArg, right: FrameArg, on: Arg, leftOn: Arg, rightOn: Arg,
                             sort: Arg, suffixes: Arg, indicator: Arg, validate: Arg)
    requires forall a, cs :: within(a, cs).Err? ==> within(a, cs).error == TypeError
    ensures var r := ValidateInputsWith(within, left, right, on, leftOn, rightOn, sort, suffixes, indicator, validate);
            ((left.SparkDF? && right.SparkDF? && !Truthy(on) && (on.NoneA? || on.StrA? || on.ListA?) &&
              leftOn.NoneA? != rightOn.NoneA?) ==> r == Err(ValueError) || r == Err(TypeError)) &&
            (left.SparkDF? && right.SparkDF? && on.NoneA? && leftOn.NoneA? && rightOn.NoneA? ==> r == Err(ValueError))
  {
  }

  /** The options are refused with the exception the code raises for each. */
  lemma ValidateOptionsErrors(sort: Arg, suffixes: Arg, indicator: Arg, validate: Arg)
    ensures var r := ValidateOptions(sort, suffixes, indicator, validate);
            (!sort.BoolA? ==> r == Err(TypeError)) &&
            (sort.BoolA? && (suffixes.TupleA? || suffixes.ListA?) && |suffixes.items| != 2 ==> r == Err(ValueError)) &&
            ((sort.BoolA? && (suffixes.TupleA? || suffixes.ListA?) && |suffixes.items| == 2 &&
              PyEq(suffixes.items[0], suffixes.items[1])) ==> r == Err(ValueError)) &&
            (sort.BoolA? && SuffixesOk(suffixes) && indicator.BoolA? && !ValidValidate(validate) ==> r == Err(TypeError))
  {
    ValidateOptionsOk(sort, suffixes, indicator, validate);
  }

  // ---------------------------------------------------------------------
  // `_validate`

  /** The messages of `_validate`. */
  const BothNotUniqueMsg: string := "Merge keys are not unique in either left or right dataset; not a one-to-one merge"
  const LeftNotUniqueOneToOneMsg: string := "Merge keys are not unique in left dataset; not a one-to-one merge"
  const RightNotUniqueOneToOneMsg: string := "Merge keys are not unique in right dataset; not a one-to-one merge"
  const LeftNotUniqueOneToManyMsg: string := "Merge keys are not unique in left dataset; not a one-to-many merge"
  const RightNotUniqueManyToOneMsg: string := "Merge keys are not unique in right dataset; not a many-to-one merge"

  /** Which sides must have unique keys for each accepted `validate` value;
      `None` for any other string. */
  function NeedsUnique(validate: string): Option<(bool, bool)> {
    if validate == "one_to_one" || validate == "1:1" then Some((true, true))
    else if validate == "one_to_many" || validate == "1:m" then Some((true, false))
    else if validate == "many_to_one" || validate == "m:1" then Some((false, true))
    else if validate == "many_to_many" || validate == "m:m" then Some((false, false))
    else None
  }

  /** The table covers exactly the values the option check accepts. */
  lemma NeedsUniqueKnown(validate: string)
    ensures NeedsUnique(validate).Some? <==> validate in Validators
  {
  }

  /** `_validate`, with the uniqueness of the left and right keys given. */
  function Validate(validate: string, leftUnique: bool, rightUnique: bool): (r: Result<(), MErr>)
    ensures r.Err? ==> r.error == ValueError || r.error.SparkMergeError?
    ensures leftUnique && rightUnique ==> (r.Ok? <==> validate in Validators)
  {
    if validate in ["one_to_one", "1:1"] then
      if !leftUnique && !rightUnique then
        Err(SparkMergeError(BothNotUniqueMsg))
      else if !leftUnique then
        Err(SparkMergeError(LeftNotUniqueOneToOneMsg))
      else if !rightUnique then
        Err(SparkMergeError(RightNotUniqueOneToOneMsg))
      else Ok(())
    else if validate in ["one_to_many", "1:m"] then
      if !leftUnique then
        Err(SparkMergeError(LeftNotUniqueOneToManyMsg))
      else Ok(())
    else if validate in ["many_to_one", "m:1"] then
      if !rightUnique then
        Err(SparkMergeError(RightNotUniqueManyToOneMsg))
      else Ok(())
    else if validate in ["many_to_many", "m:m"] then Ok(())
    else Err(ValueError)
  }

  /** The decision table: a known value passes exactly when the sides it
      names are unique, and fails with SparkMergeError otherwise; any other
      string is a ValueError. */
  lemma ValidateTable(validate: string, leftUnique: bool, rightUnique: bool)
    ensures var r := Validate(validate, leftUnique, rightUnique);
            var need := NeedsUnique(validate);
            (need.None? <==> r == Err(ValueError)) &&
            (need.Some? ==> (r.Ok? <==> (need.value.0 ==> leftUnique) && (need.value.1 ==> rightUnique))) &&
            (need.Some? && r.Err? ==> r.error.SparkMergeError?)
  {
    if validate in ["one_to_one", "1:1"] {
      ValidateOneToOne(validate, leftUnique, rightUnique);
    } else if validate in ["one_to_many", "1:m"] {
      ValidateOneToMany(validate, leftUnique, rightUnique);
    } else if validate in ["many_to_one", "m:1"] {
      ValidateManyToOne(validate, leftUnique, rightUnique);
    } else if validate in ["many_to_many", "m:m"] {
      ValidateManyToMany(validate, leftUnique, rightUnique);
    } else {
      assert validate !in Validators;
    }
  }

  lemma ValidateOneToOne(validate: string, leftUnique: bool, rightUnique: bool)
    requires validate in ["one_to_one", "1:1"]
    ensures NeedsUnique(validate) == Some((true, true))
    ensures var r := Validate(validate, leftUnique, rightUnique);
            (r.Ok? <==> leftUnique && rightUnique) && (r.Err? ==> r.error.SparkMergeError?)
  {
  }

  lemma ValidateOneToMany(validate: string, leftUnique: bool, rightUnique: bool)
    requires validate in ["one_to_many", "1:m"]
    ensures NeedsUnique(validate) == Some((true, false))
    ensures var r := Validate(validate, leftUnique, rightUnique);
            (r.Ok? <==> leftUnique) && (r.Err? ==> r.error.SparkMergeError?)
  {
    assert validate !in ["one_to_one", "1:1"];
  }

  lemma ValidateManyToOne(validate: string, leftUnique: bool, rightUnique: bool)
    requires validate in ["many_to_one", "m:1"]
    ensures NeedsUnique(validate) == Some((false, true))
    ensures var r := Validate(validate, leftUnique, rightUnique);
            (r.Ok? <==> rightUnique) && (r.Err? ==> r.error.SparkMergeError?)
  {
    assert validate !in ["one_to_one", "1:1"] && validate !in ["one_to_many", "1:m"];
  }

  lemma ValidateManyToMany(validate: string, leftUnique: bool, rightUnique: bool)
    requires validate in ["many_to_many", "m:m"]
    ensures NeedsUnique(validate) == Some((false, false))
    ensures Validate(validate, leftUnique, rightUnique) == Ok(())
  {
    assert validate !in ["one_to_one", "1:1"] && validate !in ["one_to_many", "1:m"] && validate !in ["many_to_one", "m:1"];
  }

  // ---------------------------------------------------------------------
  // The bookkeeping of `spark_merge` before the Spark calls

  /** The column managers `spark_merge` builds: one for all columns, one for
      the join keys. */
  datatype Plan = Plan(columns: ColumnManager, joinColumns: ColumnManager)

  function MergePlanWith(within: (Arg, seq<string>) -> Result<bool, MErr>,
                         listify: (Arg, Arg, Arg) -> Result<(seq<string>, seq<string>), MErr>,
                         left: FrameArg, right: FrameArg, on: Arg, leftOn: Arg, rightOn: Arg,
                         sort: Arg, suffixes: Arg, indicator: Arg, validate: Arg,
                         leftUnique: bool, rightUnique: bool): (r: Result<Plan, MErr>)
    ensures r.Ok? ==> InputsAccepted(within, left, right, on, leftOn, rightOn, sort, suffixes, indicator, validate)
    ensures r.Ok? ==> r.value.columns.left.oldNames == left.columns && r.value.columns.right.oldNames == right.columns
    ensures r.Ok? ==> listify(on, leftOn, rightOn) == Ok((r.value.joinColumns.left.oldNames, r.value.joinColumns.right.oldNames))
    ensures r.Ok? && validate.StrA? ==> Validate(validate.s, leftUnique, rightUnique) == Ok(())
  {
    ValidateInputsAccepts(within, left, right, on, leftOn, rightOn, sort, suffixes, indicator, validate);
    var _ :- ValidateInputsWith(within, left, right, on, leftOn, rightOn, sort, suffixes, indicator, validate);
    var ls := suffixes.items[0].s;
    var rs := suffixes.items[1].s;
    var cm := ColumnManager(ColumnNames(left.columns, ls), ColumnNames(right.columns, rs));
    var keys :- listify(on, leftOn, rightOn);
    var jcm := ColumnManager(ColumnNames(keys.0, ls), ColumnNames(keys.1, rs));
    var _ :- if validate.NoneA? then Ok(()) else Validate(validate.s, leftUnique, rightUnique);
    Ok(Plan(cm, jcm))
  }

  /** `spark_merge` as written, up to the join. */
  function MergePlan(left: FrameArg, right: FrameArg, on: Arg, leftOn: Arg, rightOn: Arg,
                     sort: Arg, suffixes: Arg, indicator: Arg, validate: Arg,
                     leftUnique: bool, rightUnique: bool): (r: Result<Plan, MErr>)
    ensures r.Ok? ==> ValidateInputs(left, right, on, leftOn, rightOn, sort, suffixes, indicator, validate) == Ok(())
    ensures r.Ok? ==> ListifyJoinSyntax(on, leftOn, rightOn) == Ok((r.value.joinColumns.left.oldNames, r.value.joinColumns.right.oldNames))
  {
    MergePlanWith(KeysWithin, ListifyJoinSyntax, left, right, on, leftOn, rightOn,
                  sort, suffixes, indicator, validate, leftUnique, rightUnique)
  }

  /** A bare string key is checked character by character, so the merge
      goes ahead with a key that is no column of either table. */
  lemma MergePlanCharacterKeys()
    ensures var r := MergePlan(SparkDF(["a", "b"]), SparkDF(["a", "b"]), NoneA, StrA("ab"), StrA("ab"),
                               BoolA(false), TupleA([StrA("_left"), StrA("_right")]), BoolA(false), NoneA,
                               false, false);
            r.Ok? && r.value.joinColumns.left.oldNames == ["ab"] && "ab" !in ["a", "b"]
  {
    var l := ListifyJoinSyntax(NoneA, StrA("ab"), StrA("ab"));
    assert l == Ok((["ab"], ["ab"]));
    assert ["ab"] != ["a"] && ["ab"] != ["b"];
  }

  /** `spark_merge` up to the join, with the key columns checked name by name
      and the key lists compared after listifying. */
  function MergePlanChecked(left: FrameArg, right: FrameArg, on: Arg, leftOn: Arg, rightOn: Arg,
                            sort: Arg, suffixes: Arg, indicator: Arg, validate: Arg,
                            leftUnique: bool, rightUnique: bool): (r: Result<Plan, MErr>)
    ensures r.Ok? ==> ValidateInputsWith(KeysWithinChecked, left, right, on, leftOn, rightOn, sort, suffixes, indicator, validate) == Ok(())
    ensures r.Ok? ==> ListifyJoinSyntaxChecked(on, leftOn, rightOn) == Ok((r.value.joinColumns.left.oldNames, r.value.joinColumns.right.oldNames))
  {
    MergePlanWith(KeysWithinChecked, ListifyJoinSyntaxChecked, left, right, on, leftOn, rightOn,
                  sort, suffixes, indicator, validate, leftUnique, rightUnique)
  }

  /** With the checks as intended, a merge by `left_on`/`right_on` goes ahead
      only with keys that are columns of their tables, equally many on each
      side. */
  lemma MergePlanCheckedKeys(left: FrameArg, right: FrameArg, on: Arg, leftOn: Arg, rightOn: Arg,
                             sort: Arg, suffixes: Arg, indicator: Arg, validate: Arg,
                             leftUnique: bool, rightUnique: bool)
    ensures var r := MergePlanChecked(left, right, on, leftOn, rightOn, sort, suffixes, indicator, validate,
                                      leftUnique, rightUnique);
            r.Ok? ==> var lk := r.value.joinColumns.left.oldNames;
                      var rk := r.value.joinColumns.right.oldNames;
                      |lk| == |rk| &&
                      (on.NoneA? ==> (forall i :: 0 <= i < |lk| ==> lk[i] in left.columns) &&
                                     (forall i :: 0 <= i < |rk| ==> rk[i] in right.columns))
  {
    var r := MergePlanChecked(left, right, on, leftOn, rightOn, sort, suffixes, indicator, validate,
                              leftUnique, rightUnique);
    if r.Ok? {
      var keys := ListifyJoinSyntaxChecked(on, leftOn, rightOn);
      assert keys.Ok?;
      if on.NoneA? {
        assert KeysWithinChecked(leftOn, left.columns) == Ok(true);
        assert KeysWithinChecked(rightOn, right.columns) == Ok(true);
      }
    }
  }
}
