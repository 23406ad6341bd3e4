/** Calendar helpers of impl_date.py. Every function takes a valid date and
    returns a new one; `None` stands for the OverflowError or ValueError that
    `datetime` raises when the result would leave the years 1..9999. */
module ImplDate {
  import opened Wrappers
  import opened Calendar

  /** `d - ONE_DAY`. */
  function PrevDay(d: Date): (r: Option<Date>)
    requires Valid(d)
    ensures r.None? <==> d == Date(MinYear, 1, 1)
    ensures r.Some? ==> Valid(r.value) && Ordinal(r.value) == Ordinal(d) - 1
    ensures r.Some? ==> r.value == Pred(d)
  {
    var r := AddDays(d, -1);
    if r.Some? then
      PredOrdinal(d);
      OrdinalInjective(r.value, Pred(d));
      r
    else
      ValidIffOrdinalInRange(d);
      OrdinalInjective(d, Date(MinYear, 1, 1));
      r
  }

  /** `d + ONE_DAY`. */
  function NextDay(d: Date): (r: Option<Date>)
    requires Valid(d)
    ensures r.None? <==> d == Date(MaxYear, 12, 31)
    ensures r.Some? ==> Valid(r.value) && Ordinal(r.value) == Ordinal(d) + 1
    ensures r.Some? ==> r.value == Succ(d)
  {
    var r := AddDays(d, 1);
    if r.Some? then
      SuccOrdinal(d);
      OrdinalInjective(r.value, Succ(d));
      r
    else
      ValidIffOrdinalInRange(d);
      OrdinalInjective(d, Date(MaxYear, 12, 31));
      r
  }

  /** `next_day` and `prev_day` undo each other. */
  lemma NextPrevInverse(d: Date)
    requires Valid(d)
    ensures NextDay(d).Some? ==> PrevDay(NextDay(d).value) == Some(d)
    ensures PrevDay(d).Some? ==> NextDay(PrevDay(d).value) == Some(d)
  {
    if NextDay(d).Some? {
      PrevOfNext(d, NextDay(d).value);
    }
    if PrevDay(d).Some? {
      NextOfPrev(d, PrevDay(d).value);
    }
  }

  lemma PrevOfNext(d: Date, e: Date)
    requires Valid(d) && Valid(e) && Ordinal(e) == Ordinal(d) + 1
    ensures PrevDay(e) == Some(d)
  {
    ValidIffOrdinalInRange(d);
    ValidIffOrdinalInRange(e);
    assert e != Date(MinYear, 1, 1);
    var p := PrevDay(e);
    assert p.Some? && Ordinal(p.value) == Ordinal(d);
    OrdinalInjective(p.value, d);
  }

  lemma NextOfPrev(d: Date, e: Date)
    requires Valid(d) && Valid(e) && Ordinal(e) == Ordinal(d) - 1
    ensures NextDay(e) == Some(d)
  {
    ValidIffOrdinalInRange(d);
    ValidIffOrdinalInRange(e);
    assert e != Date(MaxYear, 12, 31);
    var n := NextDay(e);
    assert n.Some? && Ordinal(n.value) == Ordinal(d);
    OrdinalInjective(n.value, d);
  }

  /** `d - ONE_WEEK`. */
  function PrevWeek(d: Date): (r: Option<Date>)
    requires Valid(d)
    ensures r.Some? <==> Ordinal(d) > 7
    ensures r.Some? ==> Valid(r.value) && Ordinal(r.value) == Ordinal(d) - 7
  {
    AddDays(d, -7)
  }

  /** `d + ONE_WEEK`. */
  function NextWeek(d: Date): (r: Option<Date>)
    requires Valid(d)
    ensures r.Some? <==> Ordinal(d) + 7 <= MaxOrdinal
    ensures r.Some? ==> Valid(r.value) && Ordinal(r.value) == Ordinal(d) + 7
  {
    AddDays(d, 7)
  }

  /** A week shift keeps the day of the week. */
  lemma WeekKeepsWeekday(d: Date)
    requires Valid(d)
    ensures NextWeek(d).Some? ==> Weekday(NextWeek(d).value) == Weekday(d)
    ensures PrevWeek(d).Some? ==> Weekday(PrevWeek(d).value) == Weekday(d)
  {
    var n := NextWeek(d);
    if n.Some? {
      SameWeekday(d, n.value, 1);
    }
    var p := PrevWeek(d);
    if p.Some? {
      SameWeekday(d, p.value, -1);
    }
  }

  lemma SameWeekday(d: Date, e: Date, k: int)
    requires Valid(d) && Valid(e) && Ordinal(e) == Ordinal(d) + 7 * k
    ensures Weekday(e) == Weekday(d)
  {
    WeekdayAfter(d, e, 7 * k);
    ModSevenCycle(Weekday(d), k);
  }

  function Min(a: int, b: int): int { if a <= b then a else b }

  /** The `for i in range(4): try d.replace(..., day=top-i)` search shared by
      the month shifts and `end_of_month`: the first of `top`, `top-1`, ...,
      `top-3` (from offset `i` on) that is a valid day of month `m`. `None` is
      the "unrechable" exception after four failures. */
  function FirstValidDay(y: int, m: int, top: int, i: nat): (r: Option<Date>)
    requires MinYear <= y <= MaxYear && 1 <= m <= 12
    requires 1 <= top <= DaysInMonth(y, m) + 3
    requires i <= 4 && (i == 0 || top - i >= DaysInMonth(y, m))
    ensures r == Some(Date(y, m, Min(top, DaysInMonth(y, m))))
    decreases 4 - i
  {
    if i == 4 then None
    else match Replace(y, m, top - i)
      case Some(e) => Some(e)
      case None => FirstValidDay(y, m, top, i + 1)
  }

  /** The same day one month earlier, clamped to the length of that month. */
  function PrevMonth(d: Date): (r: Option<Date>)
    requires Valid(d)
    ensures r.None? <==> d.year == MinYear && d.month == 1
    ensures r.Some? ==> Valid(r.value)
    ensures r.Some? && d.month == 1 ==> r.value == Date(d.year - 1, 12, d.day)
    ensures r.Some? && d.month > 1 ==>
      r.value == Date(d.year, d.month - 1, Min(d.day, DaysInMonth(d.year, d.month - 1)))
  {
    if d.month == 1 then Replace(d.year - 1, 12, d.day)
    else FirstValidDay(d.year, d.month - 1, d.day, 0)
  }

  /** The same day one month later, clamped to the length of that month. */
  function NextMonth(d: Date): (r: Option<Date>)
    requires Valid(d)
    ensures r.None? <==> d.year == MaxYear && d.month == 12
    ensures r.Some? ==> Valid(r.value)
    ensures r.Some? && d.month == 12 ==> r.value == Date(d.year + 1, 1, d.day)
    ensures r.Some? && d.month < 12 ==>
      r.value == Date(d.year, d.month + 1, Min(d.day, DaysInMonth(d.year, d.month + 1)))
  {
    if d.month == 12 then Replace(d.year + 1, 1, d.day)
    else FirstValidDay(d.year, d.month + 1, d.day, 0)
  }

  /** A month shift never moves the day forward, and keeps it whenever the
      target month is long enough. */
  lemma MonthShiftClamps(d: Date)
    requires Valid(d)
    ensures PrevMonth(d).Some? ==> PrevMonth(d).value.day <= d.day
    ensures NextMonth(d).Some? ==> NextMonth(d).value.day <= d.day
    ensures PrevMonth(d).Some? && d.day <= 28 ==> PrevMonth(d).value.day == d.day
    ensures NextMonth(d).Some? && d.day <= 28 ==> NextMonth(d).value.day == d.day
  {
  }

  /** `d.replace(year=d.year-1)`, falling back to the day before (29 February). */
  function PrevYear(d: Date): (r: Option<Date>)
    requires Valid(d)
    ensures r.None? <==> d.year == MinYear
    ensures r.Some? ==> Valid(r.value) && r.value.year == d.year - 1 && r.value.month == d.month
    ensures r.Some? ==> r.value.day == (if d.month == 2 && d.day == 29 && !IsLeap(d.year - 1) then 28 else d.day)
  {
    match Replace(d.year - 1, d.month, d.day)
    case Some(e) => Some(e)
    case None => Replace(d.year - 1, d.month, d.day - 1)
  }

  /** `d.replace(year=d.year+1)`, falling back to the day before (29 February). */
  function NextYear(d: Date): (r: Option<Date>)
    requires Valid(d)
    ensures r.None? <==> d.year == MaxYear
    ensures r.Some? ==> Valid(r.value) && r.value.year == d.year + 1 && r.value.month == d.month
    ensures r.Some? ==> r.value.day == (if d.month == 2 && d.day == 29 && !IsLeap(d.year + 1) then 28 else d.day)
  {
    match Replace(d.year + 1, d.month, d.day)
    case Some(e) => Some(e)
    case None => Replace(d.year + 1, d.month, d.day - 1)
  }

  /** `1 + (d.month - 1) // 3`. */
  function Quarter(d: Date): (q: int)
    requires Valid(d)
    ensures 1 <= q <= 4
    ensures 3 * (q - 1) < d.month <= 3 * q
  {
    1 + (d.month - 1) / 3
  }

  /** 1 for January to June, 2 for July to December. */
  function Semester(d: Date): (s: int)
    requires Valid(d)
    ensures s == 1 || s == 2
  {
    if d.month < 7 then 1 else 2
  }

  /** The first semester is the first two quarters. */
  lemma SemesterOfQuarter(d: Date)
    requires Valid(d)
    ensures Semester(d) == (Quarter(d) + 1) / 2
  {
  }

  /** `d.replace(day=1)`. */
  function StartOfMonth(d: Date): (r: Date)
    requires Valid(d)
    ensures Valid(r) && r.year == d.year && r.month == d.month && r.day == 1
    ensures Ordinal(r) == Ordinal(d) - d.day + 1
  {
    Replace(d.year, d.month, 1).value
  }

  /** The first of `d.replace(day=31)`, ..., `d.replace(day=28)` that succeeds. */
  function EndOfMonth(d: Date): (r: Date)
    requires Valid(d)
    ensures Valid(r) && r.year == d.year && r.month == d.month
    ensures r.day == DaysInMonth(d.year, d.month)
    ensures !Valid(Date(d.year, d.month, r.day + 1))
  {
    FirstValidDay(d.year, d.month, 31, 0).value
  }

  /** `d.replace(day=31, month=12)`: as written, the LAST day of the year. */
  function StartOfYear(d: Date): (r: Date)
    requires Valid(d)
    ensures Valid(r) && r == Date(d.year, 12, 31)
  {
    Replace(d.year, 12, 31).value
  }

  /** `d.replace(day=1, month=1)`: as written, the FIRST day of the year. */
  function EndOfYear(d: Date): (r: Date)
    requires Valid(d)
    ensures Valid(r) && r == Date(d.year, 1, 1)
  {
    Replace(d.year, 1, 1).value
  }

  /** The names of the two functions above are swapped: "start" lies on or
      after every day of the year and "end" on or before it, and for every date
      but 31 December the "start" comes strictly after `d`. */
  lemma StartOfYearIsNotTheStart(d: Date)
    requires Valid(d)
    ensures Ordinal(EndOfYear(d)) <= Ordinal(d) <= Ordinal(StartOfYear(d))
    ensures d != Date(d.year, 12, 31) ==> Ordinal(d) < Ordinal(StartOfYear(d))
  {
  }

  /** The intended start of the year: 1 January. */
  function FirstDayOfYear(d: Date): (r: Date)
    requires Valid(d)
    ensures Valid(r) && r == Date(d.year, 1, 1)
    ensures Ordinal(r) <= Ordinal(d)
    ensures forall e :: Valid(e) && e.year == d.year ==> Ordinal(r) <= Ordinal(e)
  {
    Replace(d.year, 1, 1).value
  }

  /** The intended end of the year: 31 December. */
  function LastDayOfYear(d: Date): (r: Date)
    requires Valid(d)
    ensures Valid(r) && r == Date(d.year, 12, 31)
    ensures Ordinal(d) <= Ordinal(r)
    ensures forall e :: Valid(e) && e.year == d.year ==> Ordinal(e) <= Ordinal(r)
  {
    Replace(d.year, 12, 31).value
  }

  /** `d - ONE_DAY * d.weekday()`: the Monday on or before `d`. Year 1 starts
      on a Monday, so this never overflows. */
  function StartOfWeek(d: Date): (r: Date)
    requires Valid(d)
    ensures Valid(r) && Weekday(r) == 0
    ensures Ordinal(d) - 6 <= Ordinal(r) <= Ordinal(d)
    ensures Ordinal(r) == Ordinal(d) - Weekday(d)
  {
    ValidIffOrdinalInRange(d);
    var r := AddDays(d, -Weekday(d)).value;
    WeekdayAfter(d, r, -Weekday(d));
    r
  }

  /** `d + ONE_DAY * (6 - d.weekday())`: the Sunday on or after `d`; it
      overflows only in the last, incomplete week of year 9999. */
  function EndOfWeek(d: Date): (r: Option<Date>)
    requires Valid(d)
    ensures r.None? <==> Ordinal(d) + 6 - Weekday(d) > MaxOrdinal
    ensures r.Some? ==> Valid(r.value) && Weekday(r.value) == 6
    ensures r.Some? ==> Ordinal(d) <= Ordinal(r.value) <= Ordinal(d) + 6
  {
    ValidIffOrdinalInRange(d);
    var r := AddDays(d, 6 - Weekday(d));
    if r.Some? then
      WeekdayAfter(d, r.value, 6 - Weekday(d));
      r
    else r
  }

  /** A week runs from its Monday to its Sunday, six days later. */
  lemma WeekSpansSixDays(d: Date)
    requires Valid(d)
    ensures EndOfWeek(d).Some? ==> Ordinal(EndOfWeek(d).value) - Ordinal(StartOfWeek(d)) == 6
    ensures EndOfWeek(d).Some? ==> StartOfWeek(EndOfWeek(d).value) == StartOfWeek(d)
  {
    if EndOfWeek(d).Some? {
      var e := EndOfWeek(d).value;
      OrdinalInjective(StartOfWeek(e), StartOfWeek(d));
    }
  }
}
