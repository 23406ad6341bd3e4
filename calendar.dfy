/** The proleptic Gregorian calendar of Python's `datetime.date`: dates of
    the years 1 to 9999, `toordinal()` (1 January of year 1 is day 1),
    `date + timedelta(days = n)`, `weekday()` (Monday is 0) and
    `date.replace(...)`. An operation that Python refuses with OverflowError or
    ValueError returns `None` here. The arithmetic itself (`Succ`, `Pred`,
    `Shift`, `Ordinal`) is defined for every year, so that it can be reasoned
    about without range side conditions. */
module Calendar {
  import opened Wrappers

  datatype Date = Date(year: int, month: int, day: int)

  const MinYear: int := 1
  const MaxYear: int := 9999
  /** `date.max.toordinal()`, the ordinal of 9999-12-31. */
  const MaxOrdinal: int := 3652059

  predicate IsLeap(y: int) {
    y % 4 == 0 && (y % 100 != 0 || y % 400 == 0)
  }

  /** Leap years repeat every 400 years: a year divisible by 4 is leap unless
      it is a century year not divisible by 400. */
  lemma LeapCycle(y: int)
    ensures IsLeap(y) <==> IsLeap(y + 400)
    ensures y % 4 != 0 ==> !IsLeap(y)
    ensures IsLeap(1600) && !IsLeap(1900) && IsLeap(2000) && !IsLeap(2100)
  {
  }

  function DaysInMonth(y: int, m: int): (n: int)
    requires 1 <= m <= 12
    ensures 28 <= n <= 31
    ensures m == 2 ==> (n == 29 <==> IsLeap(y))
  {
    if m == 2 then (if IsLeap(y) then 29 else 28)
    else if m == 4 || m == 6 || m == 9 || m == 11 then 30
    else 31
  }

  function DaysInYear(y: int): int {
    if IsLeap(y) then 366 else 365
  }

  /** A calendar date of any year. */
  predicate WellFormed(d: Date) {
    1 <= d.month <= 12 && 1 <= d.day <= DaysInMonth(d.year, d.month)
  }

  /** A date `datetime.date` can represent. */
  predicate Valid(d: Date) {
    WellFormed(d) && MinYear <= d.year <= MaxYear
  }

  /** Days in the years before year `y` (counting from year 1). */
  function DaysBeforeYear(y: int): int {
    var z := y - 1;
    365 * z + z / 4 - z / 100 + z / 400
  }

  /** Days in the months of year `y` before month `m`. */
  function DaysBeforeMonth(y: int, m: int): int
    requires 1 <= m <= 12
  {
    var base :=
      if m == 1 then 0 else if m == 2 then 31 else if m == 3 then 59
      else if m == 4 then 90 else if m == 5 then 120 else if m == 6 then 151
      else if m == 7 then 181 else if m == 8 then 212 else if m == 9 then 243
      else if m == 10 then 273 else if m == 11 then 304 else 334;
    if m > 2 && IsLeap(y) then base + 1 else base
  }

  /** `date.toordinal()`. */
  function Ordinal(d: Date): (r: int)
    requires WellFormed(d)
    ensures d == Date(1, 1, 1) ==> r == 1
    ensures DaysBeforeYear(d.year) < r <= DaysBeforeYear(d.year + 1)
  {
    DaysBeforeYearStep(d.year);
    DaysBeforeYear(d.year) + DaysBeforeMonth(d.year, d.month) + d.day
  }

  /** `date.weekday()`: Monday is 0 and Sunday is 6. */
  function Weekday(d: Date): (w: int)
    requires WellFormed(d)
    ensures 0 <= w < 7
    ensures d == Date(1, 1, 1) ==> w == 0
  {
    (Ordinal(d) + 6) % 7
  }

  /** Moving `n` days moves the day of the week by `n` (modulo 7). */
  lemma WeekdayAfter(d: Date, e: Date, n: int)
    requires WellFormed(d) && WellFormed(e) && Ordinal(e) == Ordinal(d) + n
    ensures Weekday(e) == (Weekday(d) + n) % 7
  {
    ModSevenShift(Ordinal(d) + 6, n);
  }

  lemma ModSevenShift(a: int, n: int)
    ensures (a + n) % 7 == (a % 7 + n) % 7
  {
    var q := a / 7;
    assert a + n == 7 * q + (a % 7 + n);
  }

  lemma ModSevenCycle(w: int, k: int)
    requires 0 <= w < 7
    ensures (w + 7 * k) % 7 == w
  {
  }

  lemma DaysBeforeYearStep(y: int)
    ensures DaysBeforeYear(y + 1) == DaysBeforeYear(y) + DaysInYear(y)
  {
    var z := y - 1;
    assert y / 4 - z / 4 == (if y % 4 == 0 then 1 else 0);
    assert y / 100 - z / 100 == (if y % 100 == 0 then 1 else 0);
    assert y / 400 - z / 400 == (if y % 400 == 0 then 1 else 0);
  }

  lemma {:induction false} DaysBeforeYearMonotone(y1: int, y2: int)
    requires y1 <= y2
    ensures DaysBeforeYear(y1) + 365 * (y2 - y1) <= DaysBeforeYear(y2)
    decreases y2 - y1
  {
    if y1 < y2 {
      DaysBeforeYearStep(y1);
      DaysBeforeYearMonotone(y1 + 1, y2);
    }
  }

  /** Dates of different years have different ordinals, ordered like the years. */
  lemma OrdinalYearOrder(a: Date, b: Date)
    requires WellFormed(a) && WellFormed(b) && a.year < b.year
    ensures Ordinal(a) < Ordinal(b)
  {
    DaysBeforeYearMonotone(a.year + 1, b.year);
  }

  /** `toordinal` is one-to-one. */
  lemma OrdinalInjective(a: Date, b: Date)
    requires WellFormed(a) && WellFormed(b) && Ordinal(a) == Ordinal(b)
    ensures a == b
  {
    if a.year < b.year {
      OrdinalYearOrder(a, b);
    } else if b.year < a.year {
      OrdinalYearOrder(b, a);
    }
  }

  /** The representable dates are exactly those with an ordinal in 1..MaxOrdinal. */
  lemma ValidIffOrdinalInRange(d: Date)
    requires WellFormed(d)
    ensures Valid(d) <==> 1 <= Ordinal(d) <= MaxOrdinal
  {
    if d.year < MinYear {
      DaysBeforeYearMonotone(d.year + 1, MinYear);
    } else if d.year > MaxYear {
      DaysBeforeYearMonotone(MaxYear + 1, d.year);
    } else {
      DaysBeforeYearMonotone(MinYear, d.year);
      DaysBeforeYearMonotone(d.year + 1, MaxYear + 1);
    }
  }

  /** The next calendar day. */
  function Succ(d: Date): (e: Date)
    requires WellFormed(d)
    ensures WellFormed(e)
  {
    if d.day < DaysInMonth(d.year, d.month) then Date(d.year, d.month, d.day + 1)
    else if d.month < 12 then Date(d.year, d.month + 1, 1)
    else Date(d.year + 1, 1, 1)
  }

  /** The previous calendar day. */
  function Pred(d: Date): (e: Date)
    requires WellFormed(d)
    ensures WellFormed(e)
  {
    if d.day > 1 then Date(d.year, d.month, d.day - 1)
    else if d.month > 1 then Date(d.year, d.month - 1, DaysInMonth(d.year, d.month - 1))
    else Date(d.year - 1, 12, 31)
  }

  lemma SuccOrdinal(d: Date)
    requires WellFormed(d)
    ensures Ordinal(Succ(d)) == Ordinal(d) + 1
  {
    if d.day == DaysInMonth(d.year, d.month) && d.month == 12 {
      DaysBeforeYearStep(d.year);
    }
  }

  lemma PredOrdinal(d: Date)
    requires WellFormed(d)
    ensures Ordinal(Pred(d)) == Ordinal(d) - 1
  {
    if d.day == 1 && d.month == 1 {
      DaysBeforeYearStep(d.year - 1);
    }
  }

  /** The day `n` days after `d` (before it when `n` is negative). */
  function Shift(d: Date, n: int): (e: Date)
    requires WellFormed(d)
    ensures WellFormed(e)
    decreases if n < 0 then -n else n
  {
    if n == 0 then d
    else if n > 0 then Shift(Succ(d), n - 1)
    else Shift(Pred(d), n + 1)
  }

  lemma {:induction false} ShiftOrdinal(d: Date, n: int)
    requires WellFormed(d)
    ensures Ordinal(Shift(d, n)) == Ordinal(d) + n
    decreases if n < 0 then -n else n
  {
    if n > 0 {
      SuccOrdinal(d);
      ShiftOrdinal(Succ(d), n - 1);
    } else if n < 0 {
      PredOrdinal(d);
      ShiftOrdinal(Pred(d), n + 1);
    }
  }

  /** `d + timedelta(days = n)`: OverflowError (None) outside the representable range. */
  function AddDays(d: Date, n: int): (r: Option<Date>)
    requires Valid(d)
    ensures r.Some? <==> 1 <= Ordinal(d) + n <= MaxOrdinal
    ensures r.Some? ==> Valid(r.value) && Ordinal(r.value) == Ordinal(d) + n
  {
    if 1 <= Ordinal(d) + n <= MaxOrdinal then
      ShiftOrdinal(d, n);
      ValidIffOrdinalInRange(Shift(d, n));
      Some(Shift(d, n))
    else None
  }

  /** `date.replace(year, month, day)`: ValueError (None) unless the result is a valid date. */
  function Replace(y: int, m: int, day: int): (r: Option<Date>)
    ensures r.Some? <==> Valid(Date(y, m, day))
    ensures r.Some? ==> r.value == Date(y, m, day)
  {
    if Valid(Date(y, m, day)) then Some(Date(y, m, day)) else None
  }
}
