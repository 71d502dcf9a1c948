/** The calendar: which month is displayed, which day is selected, and the
    grid of cells `renderCalendar` lays out for the displayed month. */
module Calendar {

  import opened Results
  import opened Dates
  import opened DateKeys
  import opened Store

  /** One cell of the month grid after the weekday header row. */
  datatype Cell =
    | Empty
    | Day(number: int, key: string, isToday: bool, hasEntry: bool)

  /** The cell of day `i` of month `m` of year `y`: numbered `i`, keyed by the
      day's formatted date, marked `today` when the key is today's and
      `has-entry` when the store holds non-empty text under it. */
  function DayCell(y: int, m: int, i: int, todayKey: string, d: Diaries): (c: Cell)
    requires 0 <= m < 12 && 1 <= i <= DaysInMonth(y, m)
    ensures c.Day? && c.number == i
    ensures c.isToday <==> c.key == todayKey
    ensures c.hasEntry <==> HasEntry(d, c.key)
  {
    var key := FormatDate(Date(y, m, i));
    Day(i, key, key == todayKey, HasEntry(d, key))
  }

  /** The `data-date` key of a day cell names that very day. */
  lemma DayCellKeyNamesDay(y: int, m: int, i: int, todayKey: string, d: Diaries)
    requires 0 <= m < 12 && 1 <= i <= DaysInMonth(y, m)
    ensures ParseDateKey(DayCell(y, m, i, todayKey, d).key) == Some(Date(y, m, i))
  {
    ParseFormatDate(Date(y, m, i));
  }

  /** The first `lead + n` cells of a month: `lead` empty cells, then the
      cells of days 1 to `n`. */
  predicate GridPrefix(cells: seq<Cell>, year: int, month: int, lead: int, n: int, todayKey: string, diaries: Diaries)
    requires 0 <= month < 12 && 0 <= lead && 0 <= n <= DaysInMonth(year, month)
  {
    && |cells| == lead + n
    && (forall i :: 0 <= i < lead ==> cells[i] == Empty)
    && (forall i :: lead <= i < |cells| ==> cells[i] == DayCell(year, month, i - lead + 1, todayKey, diaries))
  }

  /** The layout of a month: as many empty cells as the weekday of the 1st
      (0 for Sunday), then one cell per day of the month in increasing order. */
  predicate IsMonthGrid(cells: seq<Cell>, year: int, month: int, todayKey: string, diaries: Diaries)
    requires 0 <= month < 12
  {
    GridPrefix(cells, year, month, FirstWeekday(year, month), DaysInMonth(year, month), todayKey, diaries)
  }

  lemma GridGrows(cells: seq<Cell>, year: int, month: int, lead: int, n: int, todayKey: string, diaries: Diaries)
    requires 0 <= month < 12 && 0 <= lead && 0 <= n < DaysInMonth(year, month)
    requires GridPrefix(cells, year, month, lead, n, todayKey, diaries)
    ensures GridPrefix(cells + [DayCell(year, month, n + 1, todayKey, diaries)], year, month, lead, n + 1, todayKey, diaries)
  {
    var last := DayCell(year, month, n + 1, todayKey, diaries);
    var c := cells + [last];
    assert |c| == lead + n + 1;
    assert forall i :: 0 <= i < lead ==> c[i] == Empty by {
      assert forall i :: 0 <= i < lead ==> c[i] == cells[i];
    }
    forall i | lead <= i < |c|
      ensures c[i] == DayCell(year, month, i - lead + 1, todayKey, diaries)
    {
      if i < |cells| {
        assert c[i] == cells[i];
      } else {
        assert c[i] == last;
      }
    }
  }

  /** The two loops of `renderCalendar`. */
  method RenderGrid(year: int, month: int, todayKey: string, diaries: Diaries) returns (cells: seq<Cell>)
    requires 0 <= month < 12
    ensures IsMonthGrid(cells, year, month, todayKey, diaries)
  {
    var startDayIndex := FirstWeekday(year, month);
    var daysInMonth := DaysInMonth(year, month);
    cells := [];
    var i := 0;
    while i < startDayIndex
      invariant 0 <= i <= startDayIndex && |cells| == i
      invariant forall k :: 0 <= k < i ==> cells[k] == Empty
    {
      cells := cells + [Empty];
      i := i + 1;
    }
    i := 1;
    while i <= daysInMonth
      invariant 1 <= i <= daysInMonth + 1
      invariant GridPrefix(cells, year, month, startDayIndex, i - 1, todayKey, diaries)
    {
      var dateStr := FormatDate(Date(year, month, i));
      var cell := Day(i, dateStr, dateStr == todayKey, HasEntry(diaries, dateStr));
      GridGrows(cells, year, month, startDayIndex, i - 1, todayKey, diaries);
      cells := cells + [cell];
      i := i + 1;
    }
  }

  /** Different days of a month carry different keys. */
  lemma DayKeysDistinct(y: int, m: int, i: int, j: int, todayKey: string, d: Diaries)
    requires 0 <= m < 12 && 1 <= i <= DaysInMonth(y, m) && 1 <= j <= DaysInMonth(y, m) && i != j
    ensures DayCell(y, m, i, todayKey, d).key != DayCell(y, m, j, todayKey, d).key
  {
    if FormatDate(Date(y, m, i)) == FormatDate(Date(y, m, j)) {
      FormatDateInjective(Date(y, m, i), Date(y, m, j));
    }
  }

  /** A day cell is marked `today` exactly when it is today's cell, so a month
      shows the marker at most once, and only the month that holds today. */
  lemma TodayMarkerIsToday(y: int, m: int, i: int, today: Date, d: Diaries)
    requires 0 <= m < 12 && 1 <= i <= DaysInMonth(y, m) && ValidDate(today)
    ensures DayCell(y, m, i, FormatDate(today), d).isToday <==> today == Date(y, m, i)
  {
    if FormatDate(Date(y, m, i)) == FormatDate(today) {
      FormatDateInjective(Date(y, m, i), today);
    }
  }

  /** The three variables `currentMonth`, `currentYear` and `selectedDate`
      that the navigation handlers update. */
  class CalendarState {

    var currentMonth: int
    var currentYear: int
    var selectedDate: Date

    ghost predicate Valid()
      reads this
    {
      0 <= currentMonth < 12 && ValidDate(selectedDate)
    }

    /** Start-up: the month of today is displayed and today is selected. */
    constructor (today: Date)
      requires ValidDate(today)
      ensures Valid()
      ensures currentMonth == today.month && currentYear == today.year && selectedDate == today
    {
      currentMonth := today.month;
      currentYear := today.year;
      selectedDate := today;
    }

    /** The previous-month button: January steps back to December of the
        year before. */
    method PreviousMonth()
      requires Valid()
      modifies this
      ensures Valid()
      ensures (currentYear, currentMonth) == MonthBefore(old(currentYear), old(currentMonth))
      ensures selectedDate == old(selectedDate)
    {
      currentMonth := currentMonth - 1;
      if currentMonth < 0 {
        currentMonth := 11;
        currentYear := currentYear - 1;
      }
    }

    /** The next-month button: December steps on to January of the year
        after. */
    method NextMonth()
      requires Valid()
      modifies this
      ensures Valid()
      ensures (currentYear, currentMonth) == MonthAfter(old(currentYear), old(currentMonth))
      ensures selectedDate == old(selectedDate)
    {
      currentMonth := currentMonth + 1;
      if currentMonth > 11 {
        currentMonth := 0;
        currentYear := currentYear + 1;
      }
    }

    /** A click on day cell `i`: `new Date(currentYear, currentMonth, i)`
        becomes the selected date; the displayed month stays. */
    method SelectDay(i: int)
      requires Valid() && 1 <= i <= DaysInMonth(JsYear(currentYear), currentMonth)
      modifies this
      ensures Valid()
      ensures selectedDate == Date(JsYear(currentYear), currentMonth, i)
      ensures currentMonth == old(currentMonth) && currentYear == old(currentYear)
    {
      selectedDate := Date(JsYear(currentYear), currentMonth, i);
    }

    /** The edit-today button: today is selected and its month displayed, all
        three variables together. */
    method JumpToToday(today: Date)
      requires ValidDate(today)
      modifies this
      ensures Valid()
      ensures selectedDate == today && currentMonth == today.month && currentYear == today.year
    {
      selectedDate := today;
      currentMonth := selectedDate.month;
      currentYear := selectedDate.year;
    }
  }

  /** Stepping back and then forward, or forward and then back, returns to
      the month one started from. */
  lemma NavigationInverse(y: int, m: int)
    requires 0 <= m < 12
    ensures var (py, pm) := MonthBefore(y, m); MonthAfter(py, pm) == (y, m)
    ensures var (ny, nm) := MonthAfter(y, m); MonthBefore(ny, nm) == (y, m)
  {
  }

}
