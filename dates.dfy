/** Date arithmetic of the diary: the Gregorian month lengths JavaScript's
    `Date` uses and the weekday of a day. */
module Dates {

  /** A JavaScript `Date` reduced to what the diary reads from it:
      `getFullYear()`, the 0-based `getMonth()` and `getDate()`. */
  datatype Date = Date(year: int, month: int, day: int)

  /** The Gregorian rule: every fourth year, except the century years that
      are not a multiple of 400. */
  predicate IsLeapYear(y: int): (r: bool)
    ensures y % 4 != 0 ==> !r
    ensures y % 4 == 0 && y % 100 != 0 ==> r
    ensures y % 100 == 0 ==> (r <==> y % 400 == 0)
  {
    DivisorsNest(y);
    y % 4 == 0 && (y % 100 != 0 || y % 400 == 0)
  }

  /** The length of month `m` (0 = January) of year `y`. The source obtains it
      as `new Date(y, m + 1, 0).getDate()`; DayZeroTrick below shows that the
      two agree. */
  function DaysInMonth(y: int, m: int): (n: int)
    requires 0 <= m < 12
    ensures 28 <= n <= 31
    ensures n == 29 <==> m == 1 && IsLeapYear(y)
    ensures n == 28 <==> m == 1 && !IsLeapYear(y)
  {
    if m == 1 then (if IsLeapYear(y) then 29 else 28)
    else if m == 3 || m == 5 || m == 8 || m == 10 then 30
    else 31
  }

  /** The values a `Date` object's getters can report. */
  predicate ValidDate(d: Date)
  {
    0 <= d.month < 12 && 1 <= d.day <= DaysInMonth(d.year, d.month)
  }

  /** `new Date(y, m, d)` reads a year from 0 to 99 as 1900 to 1999. */
  function JsYear(y: int): (r: int)
    ensures !(0 <= r <= 99)
    ensures r == y || (0 <= y <= 99 && r == y + 1900)
  {
    if 0 <= y <= 99 then 1900 + y else y
  }

  /** The month after month `m` of year `y`, as (year, month). */
  function MonthAfter(y: int, m: int): (r: (int, int))
    requires 0 <= m < 12
    ensures 0 <= r.1 < 12 && 12 * r.0 + r.1 == 12 * y + m + 1
  {
    if m == 11 then (y + 1, 0) else (y, m + 1)
  }

  /** The month before month `m` of year `y`, as (year, month). */
  function MonthBefore(y: int, m: int): (r: (int, int))
    requires 0 <= m < 12
    ensures 0 <= r.1 < 12 && 12 * r.0 + r.1 == 12 * y + m - 1
  {
    if m == 0 then (y - 1, 11) else (y, m - 1)
  }

  // ---------------------------------------------------------------------
  // An independent count of days, against which the month lengths and the
  // weekday formula are checked.

  /** The weekday shift a year contributes in Sakamoto's formula: one day per
      year plus one per leap year up to and including `y`. Division by a
      positive constant is floor division, so this also holds for years
      before 1. */
  function YearShift(y: int): int
  {
    y + y / 4 - y / 100 + y / 400
  }

  /** Days from 1 January of year 1 (proleptic Gregorian) to 1 January of
      year `y`. */
  function DaysBeforeYear(y: int): int
  {
    365 * (y - 1) + (y - 1) / 4 - (y - 1) / 100 + (y - 1) / 400
  }

  /** Days in the months of year `y` before month `m`. */
  function DaysBeforeMonth(y: int, m: int): int
    requires 0 <= m <= 12
  {
    if m == 0 then 0 else DaysBeforeMonth(y, m - 1) + DaysInMonth(y, m - 1)
  }

  /** The number of the day `d` of month `m` of year `y`, counting 1 January
      of year 1 as day 0. */
  function DayNumber(y: int, m: int, d: int): int
    requires 0 <= m < 12
  {
    DaysBeforeYear(y) + DaysBeforeMonth(y, m) + d - 1
  }

  lemma QuadrennialStep(y: int)
    ensures y / 4 == (y - 1) / 4 + (if y % 4 == 0 then 1 else 0)
  {
  }

  lemma CentennialStep(y: int)
    ensures y / 100 == (y - 1) / 100 + (if y % 100 == 0 then 1 else 0)
  {
  }

  lemma QuadricentennialStep(y: int)
    ensures y / 400 == (y - 1) / 400 + (if y % 400 == 0 then 1 else 0)
  {
  }

  lemma DivisorsNest(y: int)
    ensures y % 400 == 0 ==> y % 100 == 0
    ensures y % 100 == 0 ==> y % 4 == 0
  {
  }

  /** The count of leap years grows by one exactly in a leap year. */
  lemma LeapCountStep(y: int)
    ensures y / 4 - y / 100 + y / 400
         == (y - 1) / 4 - (y - 1) / 100 + (y - 1) / 400 + (if IsLeapYear(y) then 1 else 0)
  {
    QuadrennialStep(y);
    CentennialStep(y);
    QuadricentennialStep(y);
    DivisorsNest(y);
  }

  /** Leap years are exactly the years a quadrennial, centennial and
      quadricentennial step of the day count adds a day in. */
  lemma YearStep(y: int)
    ensures DaysBeforeYear(y + 1) == DaysBeforeYear(y) + (if IsLeapYear(y) then 366 else 365)
  {
    LeapCountStep(y);
  }

  /** The days of the months before `m`, by month: the common-year table plus
      the leap day once February is past. */
  lemma {:induction false} DaysBeforeMonthTable(y: int, m: int)
    requires 0 <= m <= 12
    ensures DaysBeforeMonth(y, m)
         == [0, 31, 59, 90, 120, 151, 181, 212, 243, 273, 304, 334, 365][m]
            + (if m >= 2 && IsLeapYear(y) then 1 else 0)
  {
    if m > 0 { DaysBeforeMonthTable(y, m - 1); }
  }

  /** `new Date(y, m + 1, 0)` is the day before the 1st of the next month; it
      is day DaysInMonth(y, m) of month `m`, so its `getDate()` is the month's
      length. */
  lemma DayZeroTrick(y: int, m: int)
    requires 0 <= m < 12
    ensures var (ny, nm) := MonthAfter(y, m);
            DayNumber(ny, nm, 1) - 1 == DayNumber(y, m, DaysInMonth(y, m))
  {
    if m == 11 {
      YearStep(y);
      DaysBeforeMonthTable(y, 11);
    }
  }

  // ---------------------------------------------------------------------
  // The weekday, `Date.prototype.getDay()`.

  /** Sakamoto's per-month offset: the weekday shift of the 1st of month `m`
      against January, counting January and February in the previous year. */
  function MonthShift(m: int): int
    requires 0 <= m < 12
  {
    [0, 3, 2, 5, 0, 3, 5, 1, 4, 6, 2, 4][m]
  }

  /** Tomohiko Sakamoto's formula: 0 is Sunday, 6 is Saturday. */
  function Weekday(d: Date): (w: int)
    requires 0 <= d.month < 12
    ensures 0 <= w < 7
  {
    var y := if d.month < 2 then d.year - 1 else d.year;
    (YearShift(y) + MonthShift(d.month) + d.day) % 7
  }

  lemma ModShift(a: int, k: int)
    ensures (a + 7 * k) % 7 == a % 7
  {
  }

  /** The month offsets agree with the common-year month table modulo 7, up
      to the day March and later months gain from the year shift. */
  lemma MonthShiftMatchesTable(m: int)
    requires 0 <= m < 12
    ensures [0, 31, 59, 90, 120, 151, 181, 212, 243, 273, 304, 334, 365][m]
         == MonthShift(m) + (if m >= 2 then 1 else 0)
            + 7 * [0, 4, 8, 12, 17, 21, 25, 30, 34, 38, 43, 47][m]
  {
  }

  /** The weekday advances with the day count: 1 January of year 1 was a
      Monday, and every day moves the weekday on by one. */
  lemma WeekdayFollowsDayNumber(y: int, m: int, d: int)
    requires 0 <= m < 12
    ensures Weekday(Date(y, m, d)) == (DayNumber(y, m, d) + 1) % 7
  {
    var p := y - 1;
    var q := [0, 4, 8, 12, 17, 21, 25, 30, 34, 38, 43, 47][m];
    var leap := if IsLeapYear(y) then 1 else 0;
    DaysBeforeMonthTable(y, m);
    MonthShiftMatchesTable(m);
    LeapCountStep(y);
    assert DaysBeforeYear(y) == 364 * p + YearShift(p);
    assert YearShift(y) == YearShift(p) + 1 + leap;
    var a := (if m < 2 then YearShift(p) else YearShift(y)) + MonthShift(m) + d;
    assert Weekday(Date(y, m, d)) == a % 7;
    assert DayNumber(y, m, d) + 1 == a + 7 * (52 * p + q);
    ModShift(a, 52 * p + q);
  }

  /** `new Date(y, m, 1).getDay()`: the number of empty cells before day 1. */
  function FirstWeekday(y: int, m: int): (w: int)
    requires 0 <= m < 12
    ensures 0 <= w < 7
  {
    Weekday(Date(y, m, 1))
  }

  /** The 1st of the next month falls DaysInMonth(y, m) weekdays later. */
  lemma NextMonthStartsAfterThisOne(y: int, m: int)
    requires 0 <= m < 12
    ensures var (ny, nm) := MonthAfter(y, m);
            FirstWeekday(ny, nm) == (FirstWeekday(y, m) + DaysInMonth(y, m)) % 7
  {
    var (ny, nm) := MonthAfter(y, m);
    var n := DaysInMonth(y, m);
    DayZeroTrick(y, m);
    WeekdayFollowsDayNumber(y, m, 1);
    WeekdayFollowsDayNumber(ny, nm, 1);
    var a := DayNumber(y, m, 1) + 1;
    assert DayNumber(ny, nm, 1) + 1 == a + n;
    assert a + n == a % 7 + n + 7 * (a / 7);
    ModShift(a % 7 + n, a / 7);
  }

}
