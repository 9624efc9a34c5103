/** Gregorian calendar arithmetic, and the part of the host `Date` constructor
    the calendar page relies on: `new Date(year, month, day)` with a month
    index 0..11 and a day number from 1 upwards. */
module Dates {

  /** A calendar date as a host `Date` reports it: the full year, the month
      counted from 0 (`getMonth()`) and the day of the month from 1 (`getDate()`). */
  datatype Date = Date(year: int, month0: int, day: int)

  predicate IsLeapYear(y: int)
  {
    y % 4 == 0 && (y % 100 != 0 || y % 400 == 0)
  }

  /** The Gregorian length of month `m0` (0 = January) of year `y`. */
  function DaysInMonth(y: int, m0: int): (n: int)
    requires 0 <= m0 < 12
    ensures 28 <= n <= 31
  {
    if m0 == 1 then (if IsLeapYear(y) then 29 else 28)
    else if m0 == 3 || m0 == 5 || m0 == 8 || m0 == 10 then 30
    else 31
  }

  function DaysInYear(y: int): int
  {
    if IsLeapYear(y) then 366 else 365
  }

  predicate ValidDate(d: Date)
  {
    0 <= d.month0 < 12 && 1 <= d.day <= DaysInMonth(d.year, d.month0)
  }

  /** The host constructor reads a year argument 0..99 as 1900 + year. */
  function HostYear(y: int): int
  {
    if 0 <= y <= 99 then 1900 + y else y
  }

  /** Days of month `m0` and later in excess of the month's length carry into
      the following months, and December carries into the next year. */
  function Normalize(y: int, m0: int, d: int): (r: Date)
    requires 0 <= m0 < 12 && 1 <= d
    ensures ValidDate(r)
    ensures r.year >= y
    decreases d
  {
    if d <= DaysInMonth(y, m0) then Date(y, m0, d)
    else if m0 == 11 then Normalize(y + 1, 0, d - DaysInMonth(y, m0))
    else Normalize(y, m0 + 1, d - DaysInMonth(y, m0))
  }

  /** `new Date(year, month, day)` for a month index 0..11 and a day number >= 1. */
  function NewDate(y: int, m0: int, d: int): (r: Date)
    requires 0 <= m0 < 12 && 1 <= d
    ensures ValidDate(r)
  {
    Normalize(HostYear(y), m0, d)
  }

  /** The constructed date stays in the requested month exactly when the day
      number does not exceed the month's length; then it is that very date.
      A day number up to 31 that is too large lands in the next month. */
  lemma NewDateMonth(y: int, m0: int, d: int)
    requires 0 <= m0 < 12 && 1 <= d <= 31
    ensures NewDate(y, m0, d).month0 == m0 <==> d <= DaysInMonth(HostYear(y), m0)
    ensures d <= DaysInMonth(HostYear(y), m0) ==> NewDate(y, m0, d) == Date(HostYear(y), m0, d)
    ensures d > DaysInMonth(HostYear(y), m0) ==>
      NewDate(y, m0, d).month0 == (m0 + 1) % 12 &&
      NewDate(y, m0, d).day == d - DaysInMonth(HostYear(y), m0)
  {
    var hy := HostYear(y);
    if d > DaysInMonth(hy, m0) {
      var rest := d - DaysInMonth(hy, m0);
      assert m0 < 11 && rest <= 3;
      assert NewDate(y, m0, d) == Normalize(hy, m0 + 1, rest) == Date(hy, m0 + 1, rest);
    }
  }

  /** A valid date is a fixed point of the constructor's normalisation. */
  lemma NormalizeValid(d: Date)
    requires ValidDate(d)
    ensures Normalize(d.year, d.month0, d.day) == d
  {
  }

  /** Leap years in the years 0 .. y-1 (negative years counted with the sign
      reversed), by floor division. */
  function LeapYearsBefore(y: int): int
  {
    (y + 3) / 4 - (y + 99) / 100 + (y + 399) / 400
  }

  /** Days from 1 January of year 0 (proleptic Gregorian) to 1 January of year `y`. */
  function DaysBeforeYear(y: int): int
  {
    365 * y + LeapYearsBefore(y)
  }

  /** Days from 1 January of year `y` to the first of month `m0`. */
  function DaysBeforeMonth(y: int, m0: int): (n: int)
    requires 0 <= m0 < 12
    ensures 0 <= n <= 335
  {
    var cumulative := [0, 31, 59, 90, 120, 151, 181, 212, 243, 273, 304, 334];
    cumulative[m0] + (if m0 >= 2 && IsLeapYear(y) then 1 else 0)
  }

  /** Days from 1 January of year 0 to `d`. */
  function DayNumber(d: Date): int
    requires ValidDate(d)
  {
    DaysBeforeYear(d.year) + DaysBeforeMonth(d.year, d.month0) + d.day - 1
  }

  /** `getDay()`: 0 = Sunday .. 6 = Saturday. 1 January of year 0 is a Saturday. */
  function DayOfWeek(d: Date): (w: int)
    requires ValidDate(d)
    ensures 0 <= w < 7
  {
    (DayNumber(d) + 6) % 7
  }

  /** `isWeekend`: Sunday or Saturday. */
  predicate IsWeekend(d: Date)
    requires ValidDate(d)
  {
    var w := DayOfWeek(d);
    w == 0 || w == 6
  }

  /** The day after `d`, as the constructor builds it from day number `d.day + 1`. */
  function NextDay(d: Date): (r: Date)
    requires ValidDate(d)
    ensures ValidDate(r)
  {
    Normalize(d.year, d.month0, d.day + 1)
  }

  /** Each month starts where the previous one ends. */
  lemma {:induction false} MonthsAreContiguous(y: int, m0: int)
    requires 0 <= m0 < 11
    ensures DaysBeforeMonth(y, m0 + 1) == DaysBeforeMonth(y, m0) + DaysInMonth(y, m0)
  {
  }

  /** The twelve month lengths add up to the length of the year. */
  lemma YearIsTwelveMonths(y: int)
    ensures DaysBeforeMonth(y, 11) + DaysInMonth(y, 11) == DaysInYear(y)
  {
  }

  lemma FloorStep4(y: int)
    ensures (y + 4) / 4 - (y + 3) / 4 == if y % 4 == 0 then 1 else 0
  {
    var q, r := y / 4, y % 4;
    assert y == 4 * q + r && 0 <= r < 4;
    assert (y + 4) / 4 == q + 1;
    assert (y + 3) / 4 == if r == 0 then q else q + 1;
  }

  lemma FloorStep100(y: int)
    ensures (y + 100) / 100 - (y + 99) / 100 == if y % 100 == 0 then 1 else 0
  {
    var q, r := y / 100, y % 100;
    assert y == 100 * q + r && 0 <= r < 100;
    assert (y + 100) / 100 == q + 1;
    assert (y + 99) / 100 == if r == 0 then q else q + 1;
  }

  lemma FloorStep400(y: int)
    ensures (y + 400) / 400 - (y + 399) / 400 == if y % 400 == 0 then 1 else 0
  {
    var q, r := y / 400, y % 400;
    assert y == 400 * q + r && 0 <= r < 400;
    assert (y + 400) / 400 == q + 1;
    assert (y + 399) / 400 == if r == 0 then q else q + 1;
  }

  lemma DivisorsNest(y: int)
    ensures y % 400 == 0 ==> y % 100 == 0
    ensures y % 100 == 0 ==> y % 4 == 0
  {
    if y % 400 == 0 {
      var q := y / 400;
      assert y == 400 * q;
      assert y % 100 == 100 * (4 * q - y / 100);
    }
    if y % 100 == 0 {
      var q := y / 100;
      assert y == 100 * q;
      assert y % 4 == 4 * (25 * q - y / 4);
    }
  }

  /** The year count advances by exactly the length of each year. */
  lemma YearsAreContiguous(y: int)
    ensures DaysBeforeYear(y + 1) == DaysBeforeYear(y) + DaysInYear(y)
  {
    var step4 := (y + 4) / 4 - (y + 3) / 4;
    var step100 := (y + 100) / 100 - (y + 99) / 100;
    var step400 := (y + 400) / 400 - (y + 399) / 400;
    FloorStep4(y);
    FloorStep100(y);
    FloorStep400(y);
    DivisorsNest(y);
    assert LeapYearsBefore(y + 1) - LeapYearsBefore(y) == step4 - step100 + step400;
    assert step4 - step100 + step400 == if IsLeapYear(y) then 1 else 0;
  }

  /** Consecutive days are consecutive day numbers. */
  lemma NextDayNumber(d: Date)
    requires ValidDate(d)
    ensures DayNumber(NextDay(d)) == DayNumber(d) + 1
  {
    var y, m0 := d.year, d.month0;
    if d.day < DaysInMonth(y, m0) {
      assert NextDay(d) == Date(y, m0, d.day + 1);
    } else if m0 < 11 {
      assert NextDay(d) == Normalize(y, m0 + 1, 1) == Date(y, m0 + 1, 1);
      MonthsAreContiguous(y, m0);
    } else {
      assert NextDay(d) == Normalize(y + 1, 0, 1) == Date(y + 1, 0, 1);
      YearIsTwelveMonths(y);
      YearsAreContiguous(y);
      assert DayNumber(Date(y + 1, 0, 1)) == DaysBeforeYear(y + 1);
      assert DayNumber(d) == DaysBeforeYear(y) + DaysInYear(y) - 1;
    }
  }

  /** The weekday advances by one from each day to the next. */
  lemma NextDayOfWeek(d: Date)
    requires ValidDate(d)
    ensures DayOfWeek(NextDay(d)) == (DayOfWeek(d) + 1) % 7
  {
    NextDayNumber(d);
    SuccessorMod7(DayNumber(d) + 6);
  }

  lemma SuccessorMod7(n: int)
    ensures (n + 1) % 7 == (n % 7 + 1) % 7
  {
    var q, r := n / 7, n % 7;
    assert n == 7 * q + r && 0 <= r < 7;
    if r == 6 {
      assert n + 1 == 7 * (q + 1);
    } else {
      assert n + 1 == 7 * q + (r + 1);
    }
  }

  /** Anchors that fix the weekday numbering: 1 January 1970 was a Thursday,
      1 January 2000 a Saturday and 25 December 2024 a Wednesday. */
  lemma WeekdayAnchors()
    ensures DayOfWeek(Date(1970, 0, 1)) == 4
    ensures DayOfWeek(Date(2000, 0, 1)) == 6
    ensures DayOfWeek(Date(2024, 11, 25)) == 3
  {
  }
}
