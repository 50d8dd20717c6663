/** Proleptic Gregorian calendar arithmetic over integer day numbers, the arithmetic
    JavaScript's `Date` performs for the range picker. Day 0 is 1970-01-01; months
    are numbered 0..11 as `Date.getMonth` numbers them. */
module Calendar {

  const EpochYear := 1970
  /** 1970-01-01 was a Thursday (`getDay` 4, with Sunday 0). */
  const EpochWeekday := 4

  predicate IsLeap(y: int)
  {
    y % 4 == 0 && (y % 100 != 0 || y % 400 == 0)
  }

  function YearLength(y: int): int
  {
    if IsLeap(y) then 366 else 365
  }

  /** The Gregorian length of month `m` (0 = January) of year `y`. */
  function MonthLength(y: int, m: int): (r: int)
    requires 0 <= m < 12
    ensures 28 <= r <= 31
    ensures m == 1 ==> (r == 29 <==> IsLeap(y))
  {
    if m == 1 then (if IsLeap(y) then 29 else 28)
    else if m == 3 || m == 5 || m == 8 || m == 10 then 30
    else 31
  }

  /** Days of year `y` before the first of month `m`. */
  function DaysBeforeMonth(y: int, m: int): int
    requires 0 <= m <= 12
  {
    var common := [0, 31, 59, 90, 120, 151, 181, 212, 243, 273, 304, 334, 365][m];
    if IsLeap(y) && m >= 2 then common + 1 else common
  }

  lemma MonthStep(y: int, m: int)
    requires 0 <= m < 12
    ensures DaysBeforeMonth(y, m + 1) == DaysBeforeMonth(y, m) + MonthLength(y, m)
    ensures DaysBeforeMonth(y, 12) == YearLength(y)
  {
  }

  lemma {:induction false} MonthsIncrease(y: int, a: int, b: int)
    requires 0 <= a <= b <= 12
    ensures DaysBeforeMonth(y, a) + 28 * (b - a) <= DaysBeforeMonth(y, b)
    decreases b - a
  {
    if a < b {
      MonthStep(y, a);
      MonthsIncrease(y, a + 1, b);
    }
  }

  /** Days from 1970-01-01 to the first of January of year `y` (negative before 1970). */
  function DaysBeforeYear(y: int): int
    decreases if y >= EpochYear then y - EpochYear else EpochYear - y
  {
    if y == EpochYear then 0
    else if y > EpochYear then DaysBeforeYear(y - 1) + YearLength(y - 1)
    else DaysBeforeYear(y + 1) - YearLength(y)
  }

  lemma YearStep(y: int)
    ensures DaysBeforeYear(y + 1) == DaysBeforeYear(y) + YearLength(y)
  {
  }

  lemma {:induction false} YearsIncrease(a: int, b: int)
    requires a <= b
    ensures DaysBeforeYear(a) + 365 * (b - a) <= DaysBeforeYear(b)
    decreases b - a
  {
    if a < b {
      YearStep(a);
      YearsIncrease(a + 1, b);
    }
  }

  datatype Date = Date(year: int, month: int, day: int)

  ghost predicate ValidDate(d: Date)
  {
    0 <= d.month < 12 && 1 <= d.day <= MonthLength(d.year, d.month)
  }

  /** The day number of day `d` (1-based) of month `m` of year `y`. */
  function DayNumber(y: int, m: int, d: int): int
    requires 0 <= m < 12
  {
    DaysBeforeYear(y) + DaysBeforeMonth(y, m) + d - 1
  }

  /** `getDay`: 0 for Sunday through 6 for Saturday; 1970-01-01 was a Thursday. */
  function Weekday(n: int): (r: int)
    ensures 0 <= r < 7
    ensures n == 0 ==> r == 4
  {
    (n + EpochWeekday) % 7
  }

  // ---------------------------------------------------------------------------
  // From a day number back to a date

  function SearchYearUp(n: int, y: int): (r: int)
    requires DaysBeforeYear(y) <= n
    ensures DaysBeforeYear(r) <= n < DaysBeforeYear(r + 1)
    decreases n - DaysBeforeYear(y)
  {
    YearStep(y);
    if n < DaysBeforeYear(y + 1) then y else SearchYearUp(n, y + 1)
  }

  function SearchYearDown(n: int, y: int): (r: int)
    requires n < DaysBeforeYear(y + 1)
    ensures DaysBeforeYear(r) <= n < DaysBeforeYear(r + 1)
    decreases DaysBeforeYear(y + 1) - n
  {
    YearStep(y);
    if DaysBeforeYear(y) <= n then y else SearchYearDown(n, y - 1)
  }

  /** The year containing day `n`. */
  function YearOf(n: int): (r: int)
    ensures DaysBeforeYear(r) <= n < DaysBeforeYear(r + 1)
  {
    if n >= 0 then SearchYearUp(n, EpochYear) else SearchYearDown(n, EpochYear - 1)
  }

  function SearchMonth(y: int, offset: int, m: int): (r: int)
    requires 0 <= m < 12
    requires DaysBeforeMonth(y, m) <= offset < DaysBeforeMonth(y, 12)
    ensures m <= r < 12
    ensures DaysBeforeMonth(y, r) <= offset < DaysBeforeMonth(y, r + 1)
    decreases 12 - m
  {
    if offset < DaysBeforeMonth(y, m + 1) then m else SearchMonth(y, offset, m + 1)
  }

  /** The calendar date of day number `n`. */
  function CivilOf(n: int): (r: Date)
    ensures ValidDate(r)
    ensures DayNumber(r.year, r.month, r.day) == n
  {
    var y := YearOf(n);
    YearStep(y);
    MonthStep(y, 11);
    var offset := n - DaysBeforeYear(y);
    var m := SearchMonth(y, offset, 0);
    MonthStep(y, m);
    Date(y, m, offset - DaysBeforeMonth(y, m) + 1)
  }

  /** Only one year's span of day numbers contains a given day. */
  lemma YearUnique(n: int, a: int, b: int)
    requires DaysBeforeYear(a) <= n < DaysBeforeYear(a + 1)
    requires DaysBeforeYear(b) <= n < DaysBeforeYear(b + 1)
    ensures a == b
  {
    if a < b {
      YearsIncrease(a + 1, b);
    } else if b < a {
      YearsIncrease(b + 1, a);
    }
  }

  lemma MonthUnique(y: int, offset: int, a: int, b: int)
    requires 0 <= a < 12 && 0 <= b < 12
    requires DaysBeforeMonth(y, a) <= offset < DaysBeforeMonth(y, a + 1)
    requires DaysBeforeMonth(y, b) <= offset < DaysBeforeMonth(y, b + 1)
    ensures a == b
  {
    if a < b {
      MonthsIncrease(y, a + 1, b);
    } else if b < a {
      MonthsIncrease(y, b + 1, a);
    }
  }

  /** Day numbers and dates are in one-to-one correspondence. */
  lemma {:induction false} CivilOfDayNumber(y: int, m: int, d: int)
    requires ValidDate(Date(y, m, d))
    ensures CivilOf(DayNumber(y, m, d)) == Date(y, m, d)
  {
    var n := DayNumber(y, m, d);
    var r := CivilOf(n);
    MonthStep(y, m);
    MonthsIncrease(y, m + 1, 12);
    YearStep(y);
    MonthStep(y, 11);
    YearStep(r.year);
    MonthStep(r.year, r.month);
    MonthsIncrease(r.year, r.month + 1, 12);
    MonthStep(r.year, 11);
    YearUnique(n, y, r.year);
    MonthUnique(y, n - DaysBeforeYear(y), m, r.month);
  }

  // ---------------------------------------------------------------------------
  // Months as a cursor

  /** A (year, month) pair, month 0..11. */
  datatype YearMonth = YearMonth(year: int, month: int)

  ghost predicate ValidMonth(c: YearMonth)
  {
    0 <= c.month < 12
  }

  /** Months counted from January of year 0. */
  function MonthIndex(c: YearMonth): int
  {
    12 * c.year + c.month
  }

  /** The following month; December rolls over to January of the next year. */
  function NextMonth(c: YearMonth): (r: YearMonth)
    requires ValidMonth(c)
    ensures ValidMonth(r)
    ensures MonthIndex(r) == MonthIndex(c) + 1
  {
    if c.month == 11 then YearMonth(c.year + 1, 0) else YearMonth(c.year, c.month + 1)
  }

  /** The preceding month; January rolls back to December of the previous year. */
  function PrevMonth(c: YearMonth): (r: YearMonth)
    requires ValidMonth(c)
    ensures ValidMonth(r)
    ensures MonthIndex(r) == MonthIndex(c) - 1
  {
    if c.month == 0 then YearMonth(c.year - 1, 11) else YearMonth(c.year, c.month - 1)
  }

  /** The two steps undo each other. */
  lemma NextPrevInverse(c: YearMonth)
    requires ValidMonth(c)
    ensures PrevMonth(NextMonth(c)) == c
    ensures NextMonth(PrevMonth(c)) == c
  {
  }

  /** The first of the following month comes right after the last day of this one. */
  lemma FirstOfNextMonth(c: YearMonth)
    requires ValidMonth(c)
    ensures var nx := NextMonth(c);
            DayNumber(nx.year, nx.month, 1) == DayNumber(c.year, c.month, 1) + MonthLength(c.year, c.month)
  {
    MonthStep(c.year, c.month);
    YearStep(c.year);
  }

  /** The month containing day `n`. */
  function MonthOf(n: int): (r: YearMonth)
    ensures ValidMonth(r)
    ensures DayNumber(r.year, r.month, 1) <= n < DayNumber(r.year, r.month, 1) + MonthLength(r.year, r.month)
  {
    var d := CivilOf(n);
    YearMonth(d.year, d.month)
  }
}
