/** The package side of xlsheet.py: the ZIP signature test, the table of
    normalised part names (`_peek_components`) and the choice of worksheet
    parts by name (`identify_sheets`). A package is given by its leading
    bytes, the names its central directory lists and, for each part that
    parses as XML, its element tree. */
module XLPackage {
  import opened Wrappers
  import opened PyDict
  import opened PyNum
  import opened XLTree

  datatype Package = Package(header: seq<bv8>, names: seq<string>, parts: map<string, Element>)

  /** The local-file-header signature `PK\x03\x04` opens the file. */
  predicate HasZipSignature(header: seq<bv8>) {
    |header| >= 4 && header[..4] == [0x50, 0x4B, 0x03, 0x04]
  }

  /** One character of `name.replace('\\', '/').lower()` (ASCII letters). */
  function NormalizeChar(c: char): (r: char)
    ensures r != '\\' && !('A' <= r <= 'Z')
    ensures c != '\\' && !('A' <= c <= 'Z') ==> r == c
  {
    if c == '\\' then '/' else if 'A' <= c <= 'Z' then (c as int + 32) as char else c
  }

  /** `name.replace('\\', '/').lower()`. */
  function NormalizeName(n: string): (r: string)
    ensures |r| == |n|
    ensures forall i :: 0 <= i < |r| ==> r[i] != '\\' && !('A' <= r[i] <= 'Z')
  {
    seq(|n|, i requires 0 <= i < |n| => NormalizeChar(n[i]))
  }

  /** Normalising twice changes nothing more. */
  lemma NormalizeIdempotent(n: string)
    ensures NormalizeName(NormalizeName(n)) == NormalizeName(n)
  {
    var m := NormalizeName(n);
    assert forall i :: 0 <= i < |m| ==> NormalizeChar(m[i]) == m[i];
  }

  function NamePairs(names: seq<string>): (ps: seq<(string, string)>)
    ensures |ps| == |names|
    ensures forall i :: 0 <= i < |names| ==> ps[i] == (NormalizeName(names[i]), names[i])
  {
    seq(|names|, i requires 0 <= i < |names| => (NormalizeName(names[i]), names[i]))
  }

  /** The `component_names` dict: normalised name to the name as listed;
      of several names with the same normal form, the last listed wins. */
  function ComponentNames(names: seq<string>): (cn: Dict<string, string>)
    ensures DistinctKeys(cn)
  {
    FromPairs(NamePairs(names))
  }

  /** A normalised name is a key exactly when some listed name has that
      form, and it leads back to such a name. */
  lemma ComponentNamesLookup(names: seq<string>, key: string)
    ensures Get(ComponentNames(names), key).None? <==> forall i :: 0 <= i < |names| ==> NormalizeName(names[i]) != key
    ensures Get(ComponentNames(names), key).Some? ==>
      var n := Get(ComponentNames(names), key).value;
      n in names && NormalizeName(n) == key
  {
    var ps := NamePairs(names);
    if forall i :: 0 <= i < |names| ==> NormalizeName(names[i]) != key {
      FromPairsAbsent(ps, key);
    } else {
      var i :| 0 <= i < |names| && NormalizeName(names[i]) == key;
      FromPairsPresent(ps, i, key);
      FromPairsFrom(ps, key);
    }
  }

  // ----- identify_sheets -----

  const SheetPrefix: string := "xl/worksheets/sheet"

  /** `xl/worksheets/sheet\d+.xml` matches at the start of `s` with exactly
      `k` digits (the `.` is any character but a line feed). */
  predicate SheetMatchAt(s: string, k: int) {
    1 <= k && |SheetPrefix| + k + 4 <= |s| && s[..|SheetPrefix|] == SheetPrefix &&
    AllDigits(s[|SheetPrefix|..|SheetPrefix| + k]) && s[|SheetPrefix| + k] != '\n' &&
    s[|SheetPrefix| + k + 1..|SheetPrefix| + k + 4] == "xml"
  }

  /** `RE_SHEET.match(s)` succeeds. */
  predicate MatchesSheet(s: string) {
    exists k :: 1 <= k <= |s| && SheetMatchAt(s, k)
  }

  /** The index of the first digit of `s`, or `|s|`. */
  function FirstDigitAt(s: string): (i: nat)
    ensures i <= |s|
    ensures i < |s| ==> IsDigit(s[i])
    ensures forall j :: 0 <= j < i ==> !IsDigit(s[j])
  {
    if s == [] then 0 else if IsDigit(s[0]) then 0 else 1 + FirstDigitAt(s[1..])
  }

  /** The number of digits from position `i` on. */
  function DigitRunLength(s: string, i: nat): (n: nat)
    requires i <= |s|
    ensures i + n <= |s|
    ensures AllDigits(s[i..i + n])
    ensures i + n < |s| ==> !IsDigit(s[i + n])
    decreases |s| - i
  {
    if i == |s| || !IsDigit(s[i]) then 0
    else
      var n := DigitRunLength(s, i + 1);
      assert s[i..i + 1 + n] == [s[i]] + s[i + 1..i + 1 + n];
      1 + n
  }

  /** `RE_INT.findall(s)[0]`: the first maximal run of digits. */
  function FirstDigitRun(s: string): (r: string)
    ensures AllDigits(r)
  {
    var i := FirstDigitAt(s);
    s[i..i + DigitRunLength(s, i)]
  }

  /** `int(RE_INT.findall(s)[0])`. */
  function SheetNumber(s: string): nat {
    DigitsValue(FirstDigitRun(s))
  }

  /** For a worksheet name, the first digit run starts right after the prefix
      and has at least the digits the pattern matched (it may go on: in
      `sheet123xml` the pattern matches two digits and the key is 123). */
  lemma SheetNumberAfterPrefix(s: string, k: int)
    requires SheetMatchAt(s, k)
    ensures FirstDigitAt(s) == |SheetPrefix|
    ensures DigitRunLength(s, |SheetPrefix|) >= k
    ensures SheetNumber(s) == DigitsValue(s[|SheetPrefix|..|SheetPrefix| + DigitRunLength(s, |SheetPrefix|)])
  {
    var p := |SheetPrefix|;
    forall j | 0 <= j < p ensures !IsDigit(s[j]) {
      assert s[j] == SheetPrefix[j];
    }
    assert IsDigit(s[p]) by {
      assert s[p..p + k][0] == s[p];
    }
    DigitRunCovers(s, p, k);
  }

  /** A worksheet part named after a number is recognised, and its key is
      that number. */
  lemma SheetNameNumber(n: nat)
    ensures var name := SheetPrefix + ShowNat(n) + ".xml";
            MatchesSheet(name) && SheetNumber(name) == n
  {
    var digits := ShowNat(n);
    var name := SheetPrefix + digits + ".xml";
    var p := |SheetPrefix|;
    var k := |digits|;
    assert name[..p] == SheetPrefix;
    assert name[p..p + k] == digits;
    assert name[p + k] == '.';
    assert name[p + k + 1..p + k + 4] == "xml";
    assert SheetMatchAt(name, k);
    SheetNumberAfterPrefix(name, k);
    var m := DigitRunLength(name, p);
    assert m == k;
    DigitsValueShowNat(n);
  }

  lemma {:induction false} DigitRunCovers(s: string, i: nat, k: nat)
    requires i + k <= |s| && AllDigits(s[i..i + k])
    ensures DigitRunLength(s, i) >= k
    decreases k
  {
    if k > 0 {
      assert s[i..i + k][0] == s[i];
      assert s[i + 1..i + k] == s[i..i + k][1..];
      DigitRunCovers(s, i + 1, k - 1);
    }
  }

  /** The `(number, name)` assignments `identify_sheets` performs, in order. */
  function SheetPairs(keys: seq<string>): (ps: seq<(int, string)>)
    ensures |ps| <= |keys|
  {
    if keys == [] then []
    else
      var key := keys[|keys| - 1];
      SheetPairs(keys[..|keys| - 1]) + (if MatchesSheet(key) then [(SheetNumber(key) as int, key)] else [])
  }

  /** The dict `identify_sheets(component_names)` returns. */
  function SheetTable(keys: seq<string>): (r: Dict<int, string>)
    ensures DistinctKeys(r)
  {
    FromPairs(SheetPairs(keys))
  }

  /** One step of the loop: a worksheet name is stored under its number. */
  lemma SheetTableSnoc(keys: seq<string>)
    requires keys != []
    ensures var key := keys[|keys| - 1];
      SheetTable(keys) ==
        if MatchesSheet(key) then Put(SheetTable(keys[..|keys| - 1]), SheetNumber(key) as int, key)
        else SheetTable(keys[..|keys| - 1])
  {
    var init := keys[..|keys| - 1];
    var key := keys[|keys| - 1];
    var p := (SheetNumber(key) as int, key);
    if MatchesSheet(key) {
      assert SheetPairs(keys) == SheetPairs(init) + [p];
      FromPairsSnoc(SheetPairs(init), p);
    } else {
      assert SheetPairs(keys) == SheetPairs(init) + [];
      assert SheetPairs(init) + [] == SheetPairs(init);
    }
  }

  /** The loop's step over the prefix `keys[..i + 1]`. */
  lemma SheetTableStep(keys: seq<string>, i: nat)
    requires i < |keys|
    ensures SheetTable(keys[..i + 1]) ==
      if MatchesSheet(keys[i]) then Put(SheetTable(keys[..i]), SheetNumber(keys[i]) as int, keys[i])
      else SheetTable(keys[..i])
  {
    assert keys[..i + 1][..i] == keys[..i];
    SheetTableSnoc(keys[..i + 1]);
  }

  /** `identify_sheets(component_names)`. */
  method IdentifySheets(componentNames: Dict<string, string>) returns (out: Dict<int, string>)
    ensures out == SheetTable(Keys(componentNames))
  {
    var keys := Keys(componentNames);
    out := [];
    for i := 0 to |keys|
      invariant out == SheetTable(keys[..i])
    {
      var key := keys[i];
      SheetTableStep(keys, i);
      if MatchesSheet(key) {
        out := Put(out, SheetNumber(key) as int, key);
      }
    }
    assert keys[..|keys|] == keys;
  }

  /** The lookup after one step: the last key answers for its own number and
      leaves every other number as it was. */
  lemma SheetTableGetSnoc(keys: seq<string>, n: int)
    requires keys != []
    ensures var key := keys[|keys| - 1];
      Get(SheetTable(keys), n) ==
        if MatchesSheet(key) && SheetNumber(key) as int == n then Some(key)
        else Get(SheetTable(keys[..|keys| - 1]), n)
  {
    SheetTableSnoc(keys);
  }

  /** Every sheet the table names is a worksheet name of the input, stored
      under its own number. */
  lemma {:induction false} SheetTableSound(keys: seq<string>, n: int)
    requires Get(SheetTable(keys), n).Some?
    ensures var name := Get(SheetTable(keys), n).value;
      name in keys && MatchesSheet(name) && SheetNumber(name) == n
  {
    var init := keys[..|keys| - 1];
    var key := keys[|keys| - 1];
    SheetTableGetSnoc(keys, n);
    if !(MatchesSheet(key) && SheetNumber(key) == n) {
      SheetTableSound(init, n);
    }
  }

  /** Every worksheet name of the input makes its number a key. */
  lemma {:induction false} SheetTableComplete(keys: seq<string>, i: nat)
    requires i < |keys| && MatchesSheet(keys[i])
    ensures Get(SheetTable(keys), SheetNumber(keys[i]) as int).Some?
  {
    var init := keys[..|keys| - 1];
    var key := keys[|keys| - 1];
    SheetTableGetSnoc(keys, SheetNumber(keys[i]) as int);
    if !(MatchesSheet(key) && SheetNumber(key) == SheetNumber(keys[i])) {
      assert i < |keys| - 1 && init[i] == keys[i];
      SheetTableComplete(init, i);
    }
  }

  /** No worksheet name after position `i` has the same number as `keys[i]`. */
  predicate NoLaterSameNumber(keys: seq<string>, i: nat)
    requires i < |keys|
  {
    forall j :: i < j < |keys| && MatchesSheet(keys[j]) ==> SheetNumber(keys[j]) != SheetNumber(keys[i])
  }

  lemma NoLaterSameNumberInit(keys: seq<string>, i: nat)
    requires i < |keys| - 1 && NoLaterSameNumber(keys, i)
    ensures NoLaterSameNumber(keys[..|keys| - 1], i)
  {
    var init := keys[..|keys| - 1];
    forall j | i < j < |init| ensures init[j] == keys[j] && init[i] == keys[i] {
    }
  }

  /** A last key that is not a worksheet name of the same number leaves the
      entry of `keys[i]` alone. */
  lemma SheetTableLaterStep(keys: seq<string>, i: nat)
    requires i < |keys| - 1 && NoLaterSameNumber(keys, i)
    ensures Get(SheetTable(keys), SheetNumber(keys[i]) as int) ==
            Get(SheetTable(keys[..|keys| - 1]), SheetNumber(keys[i]) as int)
  {
    var last := |keys| - 1;
    assert MatchesSheet(keys[last]) ==> SheetNumber(keys[last]) != SheetNumber(keys[i]);
    SheetTableGetSnoc(keys, SheetNumber(keys[i]) as int);
  }

  /** Of several worksheet names with the same number, the last one wins. */
  lemma {:induction false} SheetTableLastWins(keys: seq<string>, i: nat)
    requires i < |keys| && MatchesSheet(keys[i])
    requires NoLaterSameNumber(keys, i)
    ensures Get(SheetTable(keys), SheetNumber(keys[i]) as int) == Some(keys[i])
  {
    var init := keys[..|keys| - 1];
    if i < |keys| - 1 {
      NoLaterSameNumberInit(keys, i);
      assert init[i] == keys[i];
      SheetTableLastWins(init, i);
      SheetTableLaterStep(keys, i);
    } else {
      SheetTableGetSnoc(keys, SheetNumber(keys[i]) as int);
    }
  }
}
