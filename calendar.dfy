/**
 * Calendar arithmetic behind the date picker: Gregorian month lengths, the day
 * of the week of a date, and the (leading blanks, day count) pair that lays a
 * month out in a week-aligned grid (TimeUtils.getDatePickerMonthInfo).
 *
 * Dates are proleptic Gregorian, as java.time.LocalDate has them. Weekdays are
 * derived from a day count that starts at 0001-01-01, which was a Monday.
 */
module Calendar {

  /** A calendar date; `ValidDate` says when it is a real one. */
  datatype Date = Date(year: int, month: int, day: int)

  /** java.time.DayOfWeek. */
  datatype DayOfWeek = Monday | Tuesday | Wednesday | Thursday | Friday | Saturday | Sunday
  {
    /** The ISO-8601 number of the day: 1 = Monday .. 7 = Sunday. */
    function Value(): (v: int)
      ensures 1 <= v <= 7
    {
      match this
      case Monday => 1
      case Tuesday => 2
      case Wednesday => 3
      case Thursday => 4
      case Friday => 5
      case Saturday => 6
      case Sunday => 7
    }

    /** The day of the week `days` days later (DayOfWeek.plus), cyclic. */
    function Plus(days: int): (d: DayOfWeek)
      ensures d.Value() == (Value() - 1 + days) % 7 + 1
    {
      DayOfWeekOfValue((Value() - 1 + days) % 7 + 1)
    }
  }

  /** The day of the week with ISO number `v` (DayOfWeek.of). */
  function DayOfWeekOfValue(v: int): (d: DayOfWeek)
    requires 1 <= v <= 7
    ensures d.Value() == v
  {
    if v == 1 then Monday
    else if v == 2 then Tuesday
    else if v == 3 then Wednesday
    else if v == 4 then Thursday
    else if v == 5 then Friday
    else if v == 6 then Saturday
    else Sunday
  }

  lemma ValueInjective(a: DayOfWeek, b: DayOfWeek)
    requires a.Value() == b.Value()
    ensures a == b
  {
  }

  /** Gregorian leap years: divisible by 4, and not by 100 unless by 400. */
  predicate IsLeapYear(year: int)
    ensures year % 400 == 0 ==> IsLeapYear(year)
    ensures year % 4 != 0 || (year % 100 == 0 && year % 400 != 0) ==> !IsLeapYear(year)
  {
    assert year % 400 == 0 ==> year % 4 == 0 by {
      if year % 400 == 0 {
        MultipleOfMultiple(year, 4, 100);
      }
    }
    year % 4 == 0 && (year % 100 != 0 || year % 400 == 0)
  }

  /** The leap-year rule repeats every 400 years. */
  lemma LeapYearPeriod(year: int)
    ensures IsLeapYear(year + 400) == IsLeapYear(year)
  {
    FloorDivUnique(year + 400, 4, year / 4 + 100, year % 4);
    FloorDivUnique(year + 400, 100, year / 100 + 4, year % 100);
    FloorDivUnique(year + 400, 400, year / 400 + 1, year % 400);
  }

  /** Month.length(leapYear): the number of days of `month` in `year`. */
  function MonthLength(year: int, month: int): (n: int)
    requires 1 <= month <= 12
    ensures 28 <= n <= 31
  {
    if month == 2 then (if IsLeapYear(year) then 29 else 28)
    else if month == 4 || month == 6 || month == 9 || month == 11 then 30
    else 31
  }

  predicate ValidDate(d: Date)
  {
    1 <= d.month <= 12 && 1 <= d.day <= MonthLength(d.year, d.month)
  }

  /** The first day of the month of `d` (LocalDate.withDayOfMonth(1)). */
  function FirstOfMonth(d: Date): (f: Date)
    requires 1 <= d.month <= 12
    ensures ValidDate(f) && f.year == d.year && f.month == d.month && f.day == 1
  {
    Date(d.year, d.month, 1)
  }

  /** The number of days of `year` before the first of `month` (1..13), from a cumulative table. */
  function DaysBeforeMonth(year: int, month: int): int
    requires 1 <= month <= 13
  {
    var common := [0, 31, 59, 90, 120, 151, 181, 212, 243, 273, 304, 334, 365][month - 1];
    if month > 2 && IsLeapYear(year) then common + 1 else common
  }

  function YearLength(year: int): int
  {
    DaysBeforeMonth(year, 13)
  }

  /** The number of days from 0001-01-01 to the first of January of `year`. */
  function DaysBeforeYear(year: int): int
  {
    var p := year - 1;
    365 * p + p / 4 - p / 100 + p / 400
  }

  /** The number of days from 0001-01-01 to `d` (negative before it). */
  function DayNumber(d: Date): int
    requires 1 <= d.month <= 12
  {
    DaysBeforeYear(d.year) + DaysBeforeMonth(d.year, d.month) + d.day - 1
  }

  /** The day of the week of day number `n`; day 0, 0001-01-01, was a Monday. */
  function DayOfWeekAt(n: int): DayOfWeek
  {
    DayOfWeekOfValue(n % 7 + 1)
  }

  /** LocalDate.getDayOfWeek. */
  function DayOfWeekOf(d: Date): (w: DayOfWeek)
    requires 1 <= d.month <= 12
    ensures w.Value() == (DayNumber(d) - 719162 + 3) % 7 + 1
  {
    var n := DayNumber(d);
    FloorDivUnique(n - 719159, 7, n / 7 - 102737, n % 7);
    DayOfWeekAt(n)
  }

  /** The day after `d` (LocalDate.plusDays(1)). */
  function NextDay(d: Date): (e: Date)
    requires ValidDate(d)
    ensures ValidDate(e)
  {
    if d.day < MonthLength(d.year, d.month) then Date(d.year, d.month, d.day + 1)
    else if d.month < 12 then Date(d.year, d.month + 1, 1)
    else Date(d.year + 1, 1, 1)
  }

  // ---------------------------------------------------------------------------
  // Arithmetic helpers for floor division (Dafny's `/` and `%` with a positive
  // divisor round toward minus infinity, as the day count needs for years <= 0).

  lemma {:induction false} MulAtLeast(k: int, x: int)
    requires k > 0
    ensures x >= 1 ==> k * x >= k
  {
    if x > 1 {
      MulAtLeast(k, x - 1);
      assert k * x == k * (x - 1) + k;
    }
  }

  /** Floor division is determined by quotient and remainder. */
  lemma FloorDivUnique(a: int, k: int, q: int, r: int)
    requires k > 0 && 0 <= r < k && a == k * q + r
    ensures a / k == q && a % k == r
  {
    var q', r' := a / k, a % k;
    assert a == k * q' + r';
    MulAtLeast(k, q' - q);
    MulAtLeast(k, q - q');
    assert k * (q' - q) == r - r';
    assert k * (q - q') == r' - r;
  }

  /** Stepping the dividend by one moves the quotient exactly at multiples of k. */
  lemma DivStep(a: int, k: int)
    requires k > 0
    ensures a / k - (a - 1) / k == (if a % k == 0 then 1 else 0)
  {
    var q, r := a / k, a % k;
    if r == 0 {
      FloorDivUnique(a - 1, k, q - 1, k - 1);
    } else {
      FloorDivUnique(a - 1, k, q, r - 1);
    }
  }

  /** A multiple of k * j is a multiple of k. */
  lemma MultipleOfMultiple(a: int, k: int, j: int)
    requires k > 0 && j > 0 && a % (k * j) == 0
    ensures a % k == 0
  {
    var q := a / (k * j);
    assert a == (k * j) * q;
    FloorDivUnique(a, k, j * q, 0);
  }

  // ---------------------------------------------------------------------------
  // Properties of the calendar.

  /** A year has 366 days if it is a leap year and 365 otherwise. */
  lemma YearLengthIsLeap(year: int)
    ensures YearLength(year) == (if IsLeapYear(year) then 366 else 365)
  {
  }

  /** The closed-form year count agrees with adding up year lengths. */
  lemma DaysBeforeYearStep(year: int)
    ensures DaysBeforeYear(year + 1) == DaysBeforeYear(year) + YearLength(year)
  {
    DivStep(year, 4);
    DivStep(year, 100);
    DivStep(year, 400);
    if year % 100 == 0 {
      MultipleOfMultiple(year, 4, 25);
    }
    if year % 400 == 0 {
      MultipleOfMultiple(year, 100, 4);
    }
  }

  /** Consecutive dates have consecutive day numbers: the day count is a true calendar. */
  lemma NextDayNumber(d: Date)
    requires ValidDate(d)
    ensures DayNumber(NextDay(d)) == DayNumber(d) + 1
  {
    if d.day == MonthLength(d.year, d.month) && d.month == 12 {
      DaysBeforeYearStep(d.year);
    }
  }

  /** The weekday advances by one from each date to the next. */
  lemma DayOfWeekOfNextDay(d: Date)
    requires ValidDate(d)
    ensures DayOfWeekOf(NextDay(d)) == DayOfWeekOf(d).Plus(1)
  {
    NextDayNumber(d);
    DayOfWeekAtStep(DayNumber(d));
  }

  /** The weekday of day n + 1 is the weekday of day n plus one. */
  lemma DayOfWeekAtStep(n: int)
    ensures DayOfWeekAt(n + 1) == DayOfWeekAt(n).Plus(1)
  {
    var r := n % 7;
    assert DayOfWeekAt(n).Value() == r + 1;
    if r < 6 {
      FloorDivUnique(n + 1, 7, n / 7, r + 1);
      FloorDivUnique(r + 1, 7, 0, r + 1);
    } else {
      FloorDivUnique(n + 1, 7, n / 7 + 1, 0);
      FloorDivUnique(r + 1, 7, 1, 0);
    }
    assert DayOfWeekAt(n + 1).Value() == DayOfWeekAt(n).Plus(1).Value();
    ValueInjective(DayOfWeekAt(n + 1), DayOfWeekAt(n).Plus(1));
  }


  /**
   * The anchors of the two day counts: 0001-01-01 is day 0 and a Monday, and
   * java.time's epoch day 0, 1970-01-01, is day 719162 here and a Thursday.
   */
  lemma AgreesWithEpochDay()
    ensures DayNumber(Date(1, 1, 1)) == 0 && DayOfWeekOf(Date(1, 1, 1)) == Monday
    ensures DayNumber(Date(1970, 1, 1)) == 719162 && DayOfWeekOf(Date(1970, 1, 1)) == Thursday
  {
    assert DaysBeforeYear(1970) == 719162;
  }

  // ---------------------------------------------------------------------------
  // Month info: the leading blank cells and the day count of a month grid.

  /** (leading blank cells, number of days) of a month page. */
  datatype MonthInfo = MonthInfo(offset: int, dayCount: int)

  /**
   * getDatePickerMonthInfo as written: the offset is the ISO number of the
   * weekday of day 1, less one only when the locale's week starts on Monday.
   * The grid's first cell thus falls on a Monday for Monday-first locales and
   * on a Sunday for every other locale, whatever day that locale starts with.
   */
  function DatePickerMonthInfo(d: Date, firstDayOfWeek: DayOfWeek): (info: MonthInfo)
    requires 1 <= d.month <= 12
    ensures info.dayCount == MonthLength(d.year, d.month)
    ensures firstDayOfWeek == Monday ==>
              0 <= info.offset <= 6 && info.offset + info.dayCount <= 37 &&
              DayOfWeekAt(DayNumber(FirstOfMonth(d)) - info.offset) == Monday
    ensures firstDayOfWeek != Monday ==>
              1 <= info.offset <= 7 && info.offset + info.dayCount <= 38 &&
              DayOfWeekAt(DayNumber(FirstOfMonth(d)) - info.offset) == Sunday
    ensures info.offset == 7 <==> firstDayOfWeek != Monday && DayOfWeekOf(FirstOfMonth(d)) == Sunday
  {
    var numberOfDays := MonthLength(d.year, d.month);
    var firstDay := DayOfWeekOf(FirstOfMonth(d)).Value();
    var n := DayNumber(FirstOfMonth(d));
    FloorDivUnique(n - firstDay, 7, n / 7 - 1, 6);
    if firstDayOfWeek == Monday then
      FloorDivUnique(n - (firstDay - 1), 7, n / 7, 0);
      MonthInfo(firstDay - 1, numberOfDays)
    else
      MonthInfo(firstDay, numberOfDays)
  }

  /**
   * The month info the grid needs: the offset counts the days from the
   * locale's first day of the week to day 1, so the first cell always falls
   * on that day and every month fits in 37 cells.
   */
  function AlignedMonthInfo(d: Date, firstDayOfWeek: DayOfWeek): (info: MonthInfo)
    requires 1 <= d.month <= 12
    ensures info.dayCount == MonthLength(d.year, d.month)
    ensures 0 <= info.offset <= 6 && info.offset + info.dayCount <= 37
    ensures DayOfWeekAt(DayNumber(FirstOfMonth(d)) - info.offset) == firstDayOfWeek
  {
    var firstDay := DayOfWeekOf(FirstOfMonth(d)).Value();
    var offset := (firstDay - firstDayOfWeek.Value()) % 7;
    var n := DayNumber(FirstOfMonth(d));
    DaysBackToWeekday(n, firstDayOfWeek);
    MonthInfo(offset, MonthLength(d.year, d.month))
  }

  /** Going back (weekday of n - f) mod 7 days from day n lands on weekday f. */
  lemma DaysBackToWeekday(n: int, f: DayOfWeek)
    ensures DayOfWeekAt(n - (DayOfWeekAt(n).Value() - f.Value()) % 7) == f
  {
    var firstDay, v := n % 7 + 1, f.Value();
    assert DayOfWeekAt(n).Value() == firstDay;
    var offset := (firstDay - v) % 7;
    if firstDay >= v {
      FloorDivUnique(firstDay - v, 7, 0, firstDay - v);
      FloorDivUnique(n - offset, 7, n / 7, v - 1);
    } else {
      FloorDivUnique(firstDay - v, 7, -1, firstDay - v + 7);
      FloorDivUnique(n - offset, 7, n / 7 - 1, v - 1);
    }
    ValueInjective(DayOfWeekAt(n - offset), f);
  }

  /** The month info of a date depends on its year and month only. */
  lemma MonthInfoIgnoresDay(d: Date, e: Date, firstDayOfWeek: DayOfWeek)
    requires 1 <= d.month <= 12 && d.year == e.year && d.month == e.month
    ensures DatePickerMonthInfo(d, firstDayOfWeek) == DatePickerMonthInfo(e, firstDayOfWeek)
    ensures AlignedMonthInfo(d, firstDayOfWeek) == AlignedMonthInfo(e, firstDayOfWeek)
  {
  }

  /** For a Monday-first locale the month info as written is the aligned one. */
  lemma MondayFirstIsAligned(d: Date)
    requires 1 <= d.month <= 12
    ensures DatePickerMonthInfo(d, Monday) == AlignedMonthInfo(d, Monday)
  {
  }

  /**
   * For a Sunday-first locale the two differ exactly for months that start on
   * a Sunday: seven leading blanks instead of none.
   */
  lemma SundayFirstDiffersOnSundayStarts(d: Date)
    requires 1 <= d.month <= 12
    ensures var asWritten, aligned := DatePickerMonthInfo(d, Sunday), AlignedMonthInfo(d, Sunday);
            asWritten.dayCount == aligned.dayCount &&
            (asWritten.offset == aligned.offset <==> DayOfWeekOf(FirstOfMonth(d)) != Sunday) &&
            (asWritten.offset != aligned.offset ==> asWritten.offset == 7 && aligned.offset == 0)
  {
  }

  /** 1 January 2023 was a Sunday: Monday-first gives (6, 31), which fills all 37 cells. */
  lemma January2023()
    ensures DayOfWeekOf(Date(2023, 1, 1)) == Sunday
    ensures DatePickerMonthInfo(Date(2023, 1, 1), Monday) == MonthInfo(6, 31)
    ensures DatePickerMonthInfo(Date(2023, 1, 1), Sunday) == MonthInfo(7, 31)
    ensures AlignedMonthInfo(Date(2023, 1, 1), Sunday) == MonthInfo(0, 31)
  {
  }

  lemma June2023()
    ensures DayOfWeekOf(Date(2023, 6, 1)) == Thursday
    ensures DatePickerMonthInfo(Date(2023, 6, 1), Saturday) == MonthInfo(4, 30)
    ensures AlignedMonthInfo(Date(2023, 6, 1), Saturday) == MonthInfo(5, 30)
    ensures AlignedMonthInfo(Date(2023, 6, 1), Monday) == MonthInfo(3, 30)
  {
  }

  lemma FebruaryLengths()
    ensures MonthLength(2000, 2) == 29 && MonthLength(1900, 2) == 28
    ensures MonthLength(2024, 2) == 29 && MonthLength(2023, 2) == 28
  {
  }
}
