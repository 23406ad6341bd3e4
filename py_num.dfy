/** The pieces of Python's numeric built-ins the reader relies on:
    `int(str)` and `float(str)` for plain ASCII decimal literals, `int(x)` on
    a float (truncation toward zero) and `round(x)` (ties to even). Floats are
    modelled as exact reals. */
module PyNum {
  import opened Wrappers

  predicate IsDigit(c: char) { '0' <= c <= '9' }

  predicate AllDigits(s: string) { forall i :: 0 <= i < |s| ==> IsDigit(s[i]) }

  function DigitValue(c: char): (n: int)
    requires IsDigit(c)
    ensures 0 <= n < 10
  {
    c as int - '0' as int
  }

  function DigitChar(n: int): (c: char)
    requires 0 <= n < 10
    ensures IsDigit(c) && DigitValue(c) == n
  {
    ('0' as int + n) as char
  }

  /** The value of a run of decimal digits, most significant first. */
  function DigitsValue(s: string): (n: nat)
    requires AllDigits(s)
  {
    if s == [] then 0 else DigitsValue(s[..|s| - 1]) * 10 + DigitValue(s[|s| - 1])
  }

  /** `str(n)` for a natural number. */
  function ShowNat(n: nat): (s: string)
    ensures |s| >= 1 && AllDigits(s)
  {
    if n < 10 then [DigitChar(n)] else ShowNat(n / 10) + [DigitChar(n % 10)]
  }

  /** `str(n)`. */
  function Show(n: int): (s: string)
    ensures |s| >= 1
  {
    if n < 0 then "-" + ShowNat(-n) else ShowNat(n)
  }

  lemma {:induction false} DigitsValueShowNat(n: nat)
    ensures DigitsValue(ShowNat(n)) == n
  {
    if n >= 10 {
      var s := ShowNat(n);
      assert s[..|s| - 1] == ShowNat(n / 10);
      DigitsValueShowNat(n / 10);
    }
  }

  /** `int(s)` for an optional sign followed by decimal digits; `None` is the
      ValueError Python raises for anything else. */
  function ParseInt(s: string): (r: Option<int>)
    ensures r.Some? ==> |s| >= 1
    ensures r.Some? && s[0] != '-' ==> r.value >= 0
  {
    if |s| >= 2 && (s[0] == '+' || s[0] == '-') && AllDigits(s[1..]) then
      var v: int := DigitsValue(s[1..]);
      Some(if s[0] == '-' then -v else v)
    else if |s| >= 1 && AllDigits(s) then Some(DigitsValue(s))
    else None
  }

  /** `int(str(n)) == n`. */
  lemma ParseIntShow(n: int)
    ensures ParseInt(Show(n)) == Some(n)
  {
    if n < 0 {
      assert Show(n)[1..] == ShowNat(-n);
      DigitsValueShowNat(-n);
    } else {
      DigitsValueShowNat(n);
    }
  }

  /** `10 ** e` as a real, for any integer exponent. */
  function Pow10(e: int): (r: real)
    ensures r > 0.0
    decreases if e < 0 then -e else e
  {
    if e == 0 then 1.0 else if e > 0 then 10.0 * Pow10(e - 1) else Pow10(e + 1) / 10.0
  }

  /** The position of the first exponent marker, or `|s|`. */
  function ExponentAt(s: string): (k: nat)
    ensures k <= |s|
    ensures k < |s| ==> s[k] == 'e' || s[k] == 'E'
    ensures forall i :: 0 <= i < k ==> s[i] != 'e' && s[i] != 'E'
  {
    if s == [] then 0
    else if s[0] == 'e' || s[0] == 'E' then 0
    else 1 + ExponentAt(s[1..])
  }

  /** The position of the first '.', or `|s|`. */
  function PointAt(s: string): (k: nat)
    ensures k <= |s|
    ensures k < |s| ==> s[k] == '.'
    ensures forall i :: 0 <= i < k ==> s[i] != '.'
  {
    if s == [] then 0 else if s[0] == '.' then 0 else 1 + PointAt(s[1..])
  }

  /** An unsigned mantissa `digits`, `digits.`, `.digits` or `digits.digits`. */
  function ParseMantissa(m: string): (r: Option<real>)
    ensures r.Some? ==> r.value >= 0.0
  {
    var k := PointAt(m);
    var whole := m[..k];
    var frac := if k < |m| then m[k + 1..] else [];
    if AllDigits(whole) && AllDigits(frac) && |whole| + |frac| >= 1 then
      Some(DigitsValue(whole) as real + DigitsValue(frac) as real / Pow10(|frac|))
    else None
  }

  /** `float(s)` for a finite decimal literal with optional sign and exponent;
      `None` is the ValueError Python raises for anything else. */
  function ParseFloat(s: string): (r: Option<real>)
  {
    var neg := |s| >= 1 && s[0] == '-';
    var body := if |s| >= 1 && (s[0] == '+' || s[0] == '-') then s[1..] else s;
    var k := ExponentAt(body);
    var mant := ParseMantissa(body[..k]);
    var exp := if k < |body| then ParseInt(body[k + 1..]) else Some(0);
    if mant.None? || exp.None? then None
    else
      var v := mant.value * Pow10(exp.value);
      Some(if neg then -v else v)
  }

  lemma NoMarkersInDigits(s: string)
    requires AllDigits(s)
    ensures ExponentAt(s) == |s| && PointAt(s) == |s|
  {
  }

  /** Every integer literal is also a float literal with the same value:
      `float(str(n)) == n`. */
  lemma ParseFloatShow(n: int)
    ensures ParseFloat(Show(n)) == Some(n as real)
  {
    var m: nat := if n < 0 then -n else n;
    var digits := ShowNat(m);
    var s := Show(n);
    NoMarkersInDigits(digits);
    DigitsValueShowNat(m);
    assert digits[0] != '-' && digits[0] != '+';
    var body := if |s| >= 1 && (s[0] == '+' || s[0] == '-') then s[1..] else s;
    if n < 0 {
      assert s == "-" + digits;
      assert body == digits;
    } else {
      assert body == digits;
    }
    assert ExponentAt(body) == |body|;
    assert body[..|body|] == digits;
    assert ParseMantissa(digits) == Some(m as real) by {
      assert digits[..|digits|] == digits;
      assert Pow10(0) == 1.0;
    }
    assert (m as real) * Pow10(0) == m as real;
  }

  /** `int(x)` for a float: truncation toward zero. */
  function Trunc(x: real): (n: int)
    ensures x >= 0.0 ==> n as real <= x < n as real + 1.0
    ensures x < 0.0 ==> n as real - 1.0 < x <= n as real
  {
    if x >= 0.0 then x.Floor else -((-x).Floor)
  }

  /** `round(x)`: the nearest integer, ties going to the even neighbour. */
  function RoundHalfEven(x: real): (n: int)
    ensures -0.5 <= x - n as real <= 0.5
    ensures x - n as real == 0.5 || n as real - x == 0.5 ==> n % 2 == 0
  {
    var f := x.Floor;
    var d := x - f as real;
    if d < 0.5 then f
    else if d > 0.5 then f + 1
    else if f % 2 == 0 then f else f + 1
  }

  /** Rounding commutes with shifting by an even integer. */
  lemma RoundShiftEven(x: real, k: int)
    requires k % 2 == 0
    ensures RoundHalfEven(x + k as real) == RoundHalfEven(x) + k
  {
    assert (x + k as real).Floor == x.Floor + k;
  }
}
