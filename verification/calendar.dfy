/**
  Calendar dates as JavaScript's `Date` treats them, without time zones:
  a date is a (year, month, day) triple with a ZERO-BASED month as `getMonth`
  returns it, and a timestamp is a date plus the milliseconds since midnight.
  Constructing a date from out-of-range components rolls over exactly as
  `new Date(y, m, d)` and `setMonth` do.
 */
module Calendar {

  const MsPerDay: int := 86_400_000

  datatype Date = Date(year: int, month: int, day: int)

  /** A point in time: a calendar date and a time of day in milliseconds. */
  datatype DateTime = DateTime(date: Date, ms: int)

  predicate IsLeapYear(y: int) {
    y % 4 == 0 && (y % 100 != 0 || y % 400 == 0)
  }

  function DaysInMonth(y: int, m: int): (n: int)
    requires 0 <= m < 12
    ensures 28 <= n <= 31
    ensures m == 1 ==> (n == 29 <==> IsLeapYear(y))
  {
    if m == 1 then (if IsLeapYear(y) then 29 else 28)
    else if m == 3 || m == 5 || m == 8 || m == 10 then 30
    else 31
  }

  predicate ValidDate(d: Date) {
    0 <= d.month < 12 && 1 <= d.day <= DaysInMonth(d.year, d.month)
  }

  predicate ValidDateTime(t: DateTime) {
    ValidDate(t.date) && 0 <= t.ms < MsPerDay
  }

  /** Months elapsed since January of year 0: `year * 12 + month`. */
  function MonthIndex(d: Date): int {
    d.year * 12 + d.month
  }

  /** Chronological order of dates. */
  predicate DateLe(a: Date, b: Date) {
    a.year < b.year
    || (a.year == b.year && a.month < b.month)
    || (a.year == b.year && a.month == b.month && a.day <= b.day)
  }

  /** Chronological order of timestamps (`a <= b` on two `Date` objects). */
  predicate Le(a: DateTime, b: DateTime) {
    (DateLe(a.date, b.date) && a.date != b.date) || (a.date == b.date && a.ms <= b.ms)
  }

  lemma LeIsTotalOrder(a: DateTime, b: DateTime, c: DateTime)
    ensures Le(a, a)
    ensures Le(a, b) || Le(b, a)
    ensures Le(a, b) && Le(b, a) ==> a == b
    ensures Le(a, b) && Le(b, c) ==> Le(a, c)
  {
  }

  /** Carries surplus days into the following months. */
  function RollForward(y: int, m: int, d: int): (r: Date)
    requires 0 <= m < 12 && d >= 1
    ensures ValidDate(r)
    ensures d <= DaysInMonth(y, m) ==> r == Date(y, m, d)
    ensures MonthIndex(r) >= y * 12 + m
    decreases d
  {
    var n := DaysInMonth(y, m);
    if d <= n then Date(y, m, d)
    else if m == 11 then RollForward(y + 1, 0, d - n)
    else RollForward(y, m + 1, d - n)
  }

  /** Borrows days from the preceding months while the day is below 1. */
  function RollBackward(y: int, m: int, d: int): (r: Date)
    requires 0 <= m < 12 && d <= 0
    ensures ValidDate(r)
    ensures MonthIndex(r) < y * 12 + m
    decreases -d
  {
    var py := if m == 0 then y - 1 else y;
    var pm := if m == 0 then 11 else m - 1;
    var d' := d + DaysInMonth(py, pm);
    if d' >= 1 then Date(py, pm, d') else RollBackward(py, pm, d')
  }

  /** The day `d - 1` days after the first of month `m` (0..11) of year `y`. */
  function Normalize(y: int, m: int, d: int): (r: Date)
    requires 0 <= m < 12
    ensures ValidDate(r)
  {
    if d >= 1 then RollForward(y, m, d) else RollBackward(y, m, d)
  }

  /**
    ECMAScript MakeDay: the month may be any integer; whole years are carried
    out of it first (`/` and `%` by 12 floor here, as the standard requires),
    then the day rolls over.
   */
  function MakeDay(y: int, m: int, d: int): (r: Date)
    ensures ValidDate(r)
  {
    Normalize(y + m / 12, m % 12, d)
  }

  /** `new Date(y, m, d)`: a two-digit year 0..99 means 1900..1999. */
  function NewDate(y: int, m: int, d: int): (r: Date)
    ensures ValidDate(r)
  {
    MakeDay(if 0 <= y <= 99 then 1900 + y else y, m, d)
  }

  /** `date.setMonth(date.getMonth() + k)`: the day of the month is kept and rolls over when too large. */
  function AddMonths(t: DateTime, k: int): (r: DateTime)
    ensures ValidDate(r.date)
    ensures r.ms == t.ms
  {
    DateTime(MakeDay(t.date.year, t.date.month + k, t.date.day), t.ms)
  }

  lemma MonthIndexOfMakeDay(y: int, m: int)
    ensures (y + m / 12) * 12 + m % 12 == y * 12 + m
    ensures 0 <= m % 12 < 12
  {
  }

  /**
    Adding months keeps the day of the month whenever that day exists in the
    target month, and the month index advances by exactly `k`.
   */
  lemma AddMonthsKeepsDay(t: DateTime, k: int)
    requires ValidDate(t.date)
    requires t.date.day <= DaysInMonth(t.date.year + (t.date.month + k) / 12, (t.date.month + k) % 12)
    ensures AddMonths(t, k).date.day == t.date.day
    ensures MonthIndex(AddMonths(t, k).date) == MonthIndex(t.date) + k
  {
    MonthIndexOfMakeDay(t.date.year, t.date.month + k);
  }

  /** In particular, any start day up to the 28th is kept and exactly `k` months pass. */
  lemma AddMonthsEarlyDay(t: DateTime, k: int)
    requires ValidDate(t.date) && t.date.day <= 28
    ensures AddMonths(t, k).date.day == t.date.day
    ensures MonthIndex(AddMonths(t, k).date) == MonthIndex(t.date) + k
  {
    AddMonthsKeepsDay(t, k);
  }

  /**
    When the start day does not exist in the target month, the surplus days
    spill into the following month: the 31st plus one month in a 30-day
    target month is the 1st of the month after.
   */
  lemma AddMonthsRollsOver(t: DateTime, k: int)
    requires ValidDate(t.date)
    requires t.date.day > DaysInMonth(t.date.year + (t.date.month + k) / 12, (t.date.month + k) % 12)
    ensures AddMonths(t, k).date.day == t.date.day - DaysInMonth(t.date.year + (t.date.month + k) / 12, (t.date.month + k) % 12)
    ensures MonthIndex(AddMonths(t, k).date) == MonthIndex(t.date) + k + 1
  {
    var y := t.date.year + (t.date.month + k) / 12;
    var m := (t.date.month + k) % 12;
    MonthIndexOfMakeDay(t.date.year, t.date.month + k);
    var n := DaysInMonth(y, m);
    // December has 31 days, so the surplus case never leaves the year.
    assert m != 11;
    assert RollForward(y, m, t.date.day) == RollForward(y, m + 1, t.date.day - n);
  }

  /**
    The date range `teacherAttendanceHistory` builds for a "YYYY-MM" filter:
    `new Date(y, m - 1, 1)` through `new Date(y, m, 0)`.
   */
  function MonthRange(y: int, m: int): (r: (Date, Date))
    ensures ValidDate(r.0) && ValidDate(r.1)
  {
    (NewDate(y, m - 1, 1), NewDate(y, m, 0))
  }

  /**
    For a real month (1..12) of a four-digit year, the range runs from the 1st
    to the last day of that month; a February range ends on the 29th exactly
    in leap years.
   */
  lemma MonthRangeCoversMonth(y: int, m: int)
    requires y >= 100 && 1 <= m <= 12
    ensures MonthRange(y, m).0 == Date(y, m - 1, 1)
    ensures MonthRange(y, m).1 == Date(y, m - 1, DaysInMonth(y, m - 1))
    ensures m == 2 ==> (MonthRange(y, m).1.day == 29 <==> IsLeapYear(y))
    ensures DateLe(MonthRange(y, m).0, MonthRange(y, m).1)
  {
    assert (m - 1) / 12 == 0 && (m - 1) % 12 == m - 1;
    if m == 12 {
      assert m / 12 == 1 && m % 12 == 0;
      assert NewDate(y, m, 0) == RollBackward(y + 1, 0, 0);
    } else {
      assert m / 12 == 0 && m % 12 == m;
      assert NewDate(y, m, 0) == RollBackward(y, m, 0);
    }
  }

  /** 2024-01-01 plus three months is 2024-04-01. */
  lemma ThreeMonthsFromNewYear2024()
    ensures AddMonths(DateTime(Date(2024, 0, 1), 0), 3).date == Date(2024, 3, 1)
  {
  }

  /** January 31st 2024 plus one month rolls over February 29th into March 2nd. */
  lemma JanuaryThirtyFirstPlusOneMonth2024()
    ensures AddMonths(DateTime(Date(2024, 0, 31), 0), 1).date == Date(2024, 2, 2)
  {
    assert DaysInMonth(2024, 1) == 29;
    assert RollForward(2024, 1, 31) == RollForward(2024, 2, 2);
  }
}
