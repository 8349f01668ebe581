/**
 * The month page of the calendar: a fixed grid of 37 cells, seven to a row,
 * under a header row of weekday labels. Cell i shows day i + 1 - offset when
 * offset <= i < offset + dayCount and nothing otherwise; a day cell is marked
 * when it is the selected date and, independently, when it is today.
 */
module Grid {
  import opened Calendar
  import opened Paging

  /** The number of cells of a month page. */
  const SlotCount: int := 37

  /** The number of columns of the grid, one per day of the week. */
  const Columns: int := 7

  /** One cell of a month page. */
  datatype Slot = Blank | Day(day: int, selected: bool, today: bool)

  /** The cell at index i of a month page. */
  function SlotAt(info: MonthInfo, year: int, month: int, selection: Date, today: Date, i: int): Slot
  {
    if i >= info.offset && i - info.offset < info.dayCount then
      var day := i + 1 - info.offset;
      Day(day, selection == Date(year, month, day), today == Date(year, month, day))
    else
      Blank
  }

  /** The cells of the page of `month` of `year`, laid out by `info`. */
  function MonthGrid(info: MonthInfo, year: int, month: int, selection: Date, today: Date): (g: seq<Slot>)
    ensures |g| == SlotCount
    ensures forall i :: 0 <= i < |g| ==> (g[i].Day? <==> info.offset <= i < info.offset + info.dayCount)
    ensures forall i :: 0 <= i < |g| && g[i].Day? ==>
              g[i].day == i + 1 - info.offset &&
              (g[i].selected <==> selection == Date(year, month, g[i].day)) &&
              (g[i].today <==> today == Date(year, month, g[i].day))
  {
    seq(SlotCount, i requires 0 <= i < SlotCount => SlotAt(info, year, month, selection, today, i))
  }

  /**
   * The label of header column `column` (firstDayOfWeek.plus(column)); the
   * first column carries the first day of the week, and so does every
   * seventh column after it.
   */
  function HeaderDay(firstDayOfWeek: DayOfWeek, column: int): (h: DayOfWeek)
    ensures column % 7 == 0 ==> h == firstDayOfWeek
  {
    var h := firstDayOfWeek.Plus(column);
    assert column % 7 == 0 ==> h == firstDayOfWeek by {
      if column % 7 == 0 {
        FloorDivUnique(firstDayOfWeek.Value() - 1 + column, 7, column / 7, firstDayOfWeek.Value() - 1);
        ValueInjective(h, firstDayOfWeek);
      }
    }
    h
  }

  /** Shifting by two different amounts below seven leaves different remainders by seven. */
  lemma ShiftsDistinct(a: int, i: int, j: int)
    requires 0 <= a < 7 && 0 <= i < j < 7
    ensures (a + i) % 7 != (a + j) % 7
  {
    var x, y := a + i, a + j;
    if x < 7 {
      FloorDivUnique(x, 7, 0, x);
    } else {
      FloorDivUnique(x, 7, 1, x - 7);
    }
    if y < 7 {
      FloorDivUnique(y, 7, 0, y);
    } else {
      FloorDivUnique(y, 7, 1, y - 7);
    }
  }

  /** The seven header columns carry seven different days. */
  lemma HeaderColumnsDistinct(firstDayOfWeek: DayOfWeek, i: int, j: int)
    requires 0 <= i < j < Columns
    ensures HeaderDay(firstDayOfWeek, i) != HeaderDay(firstDayOfWeek, j)
  {
    ShiftsDistinct(firstDayOfWeek.Value() - 1, i, j);
    assert HeaderDay(firstDayOfWeek, i).Value() != HeaderDay(firstDayOfWeek, j).Value();
  }

  // ---------------------------------------------------------------------------
  // Which days a page shows.

  /** The integers lo, lo + 1, .., hi - 1. */
  function Span(lo: int, hi: int): (s: seq<int>)
    decreases hi - lo
  {
    if hi <= lo then [] else Span(lo, hi - 1) + [hi - 1]
  }

  function Clamp(x: int, lo: int, hi: int): int
  {
    if x < lo then lo else if x > hi then hi else x
  }

  /** The day numbers of the day cells of `g`, in grid order. */
  function DaysShown(g: seq<Slot>): seq<int>
  {
    if g == [] then []
    else DaysShown(g[..|g| - 1]) + (if g[|g| - 1].Day? then [g[|g| - 1].day] else [])
  }

  lemma {:induction false} DaysShownPrefix(info: MonthInfo, year: int, month: int, selection: Date, today: Date, n: int)
    requires 0 <= info.offset && 0 <= info.dayCount && 0 <= n <= SlotCount
    ensures DaysShown(MonthGrid(info, year, month, selection, today)[..n]) ==
            Span(1, Clamp(n - info.offset, 0, info.dayCount) + 1)
  {
    var g := MonthGrid(info, year, month, selection, today);
    if n > 0 {
      DaysShownPrefix(info, year, month, selection, today, n - 1);
      assert g[..n][..n - 1] == g[..n - 1];
    }
  }

  /**
   * A page shows the days 1, 2, .. of its month in grid order, without gaps or
   * repeats, as many as fit in the cells after the leading blanks.
   */
  lemma DaysShownInOrder(info: MonthInfo, year: int, month: int, selection: Date, today: Date)
    requires 0 <= info.offset && 0 <= info.dayCount
    ensures DaysShown(MonthGrid(info, year, month, selection, today)) ==
            Span(1, Clamp(SlotCount - info.offset, 0, info.dayCount) + 1)
    ensures info.offset + info.dayCount <= SlotCount ==>
            DaysShown(MonthGrid(info, year, month, selection, today)) == Span(1, info.dayCount + 1)
  {
    var g := MonthGrid(info, year, month, selection, today);
    DaysShownPrefix(info, year, month, selection, today, SlotCount);
    assert g[..SlotCount] == g;
  }

  /** Remainders by seven add up modulo seven. */
  lemma ModSum(n: int, i: int)
    ensures (n + i) % 7 == (n % 7 + i % 7) % 7
  {
    var a, b := n % 7, i % 7;
    var q := n / 7 + i / 7;
    assert n + i == 7 * q + a + b;
    if a + b < 7 {
      FloorDivUnique(n + i, 7, q, a + b);
      FloorDivUnique(a + b, 7, 0, a + b);
    } else {
      FloorDivUnique(n + i, 7, q + 1, a + b - 7);
      FloorDivUnique(a + b, 7, 1, a + b - 7);
    }
  }

  /**
   * With the aligned month info, cell i holds a day that falls on the weekday
   * of the header label above it, column i mod 7.
   */
  lemma ColumnsMatchHeader(d: Date, firstDayOfWeek: DayOfWeek, i: int)
    requires 1 <= d.month <= 12
    requires AlignedMonthInfo(d, firstDayOfWeek).offset <= i
    requires i < AlignedMonthInfo(d, firstDayOfWeek).offset + AlignedMonthInfo(d, firstDayOfWeek).dayCount
    ensures DayOfWeekOf(Date(d.year, d.month, i + 1 - AlignedMonthInfo(d, firstDayOfWeek).offset)) ==
            HeaderDay(firstDayOfWeek, i % Columns)
  {
    var info := AlignedMonthInfo(d, firstDayOfWeek);
    var n0 := DayNumber(FirstOfMonth(d)) - info.offset;
    assert DayOfWeekAt(n0) == firstDayOfWeek;
    assert n0 % 7 + 1 == firstDayOfWeek.Value();
    var day := Date(d.year, d.month, i + 1 - info.offset);
    assert DayNumber(day) == n0 + i;
    ModSum(n0, i);
    assert DayOfWeekOf(day).Value() == (n0 + i) % 7 + 1;
    assert HeaderDay(firstDayOfWeek, i % Columns).Value() == (n0 % 7 + i % 7) % 7 + 1;
    ValueInjective(DayOfWeekOf(day), HeaderDay(firstDayOfWeek, i % Columns));
  }

  // ---------------------------------------------------------------------------
  // Marks and taps.

  /**
   * The selected mark is on exactly one cell when the selection is a shown day
   * of the page's month, and on none otherwise; the same holds of today's mark.
   */
  lemma MarkedCell(info: MonthInfo, year: int, month: int, selection: Date, today: Date, i: int)
    requires 0 <= i < SlotCount
    ensures var g := MonthGrid(info, year, month, selection, today);
            (g[i].Day? && g[i].selected <==>
               selection.year == year && selection.month == month &&
               1 <= selection.day <= info.dayCount && i == info.offset + selection.day - 1) &&
            (g[i].Day? && g[i].today <==>
               today.year == year && today.month == month &&
               1 <= today.day <= info.dayCount && i == info.offset + today.day - 1)
  {
  }

  /** The selected mark does not depend on today, nor today's mark on the selection. */
  lemma MarksIndependent(info: MonthInfo, year: int, month: int, s1: Date, s2: Date, t1: Date, t2: Date, i: int)
    requires 0 <= i < SlotCount
    ensures var g, h := MonthGrid(info, year, month, s1, t1), MonthGrid(info, year, month, s1, t2);
            g[i].Day? ==> g[i].selected == h[i].selected
    ensures var g, h := MonthGrid(info, year, month, s1, t1), MonthGrid(info, year, month, s2, t1);
            g[i].Day? ==> g[i].today == h[i].today
  {
  }

  /** The date a tap on day cell i selects: LocalDate.of(year, month, i + 1 - offset). */
  function TapDate(info: MonthInfo, year: int, month: int, i: int): (d: Date)
    requires 1 <= month <= 12 && info.dayCount <= MonthLength(year, month)
    requires info.offset <= i < info.offset + info.dayCount
    ensures ValidDate(d) && d.year == year && d.month == month
  {
    Date(year, month, i + 1 - info.offset)
  }

  /** After a tap on a day cell, that cell and no other carries the selected mark. */
  lemma TapSelectsCell(info: MonthInfo, year: int, month: int, today: Date, i: int)
    requires 1 <= month <= 12 && info.dayCount <= MonthLength(year, month)
    requires 0 <= info.offset <= i < info.offset + info.dayCount && i < SlotCount
    ensures var g := MonthGrid(info, year, month, TapDate(info, year, month, i), today);
            g[i].Day? && g[i].selected && g[i].day == TapDate(info, year, month, i).day &&
            forall j :: 0 <= j < SlotCount && j != i ==> !(g[j].Day? && g[j].selected)
  {
  }

  // ---------------------------------------------------------------------------
  // The page of the pager.

  /** The month info of page `page`, aligned to the locale's first day of the week. */
  function PageMonthInfo(r: YearRange, page: nat, firstDayOfWeek: DayOfWeek): (info: MonthInfo)
    ensures 0 <= info.offset && info.offset + info.dayCount <= SlotCount
    ensures info.dayCount == MonthLength(PageDate(r, page).year, PageDate(r, page).month)
  {
    AlignedMonthInfo(PageDate(r, page), firstDayOfWeek)
  }

  /** The cells of page `page`: every day of its month, once each and in order. */
  function PageGrid(r: YearRange, page: nat, firstDayOfWeek: DayOfWeek, selection: Date, today: Date): (g: seq<Slot>)
    ensures |g| == SlotCount
    ensures DaysShown(g) == Span(1, MonthLength(PageDate(r, page).year, PageDate(r, page).month) + 1)
  {
    var pageDate := PageDate(r, page);
    var info := PageMonthInfo(r, page, firstDayOfWeek);
    DaysShownInOrder(info, pageDate.year, pageDate.month, selection, today);
    MonthGrid(info, pageDate.year, pageDate.month, selection, today)
  }

  /**
   * With the month info as written, a Sunday-first page of January 2023, which
   * starts on a Sunday, opens with a full row of blanks and has no cell for the 31st.
   */
  lemma SundayFirstAsWrittenDropsLastDay(selection: Date, today: Date)
    ensures var g := MonthGrid(DatePickerMonthInfo(Date(2023, 1, 1), Sunday), 2023, 1, selection, today);
            DaysShown(g) == Span(1, 31) && 31 !in DaysShown(g)
  {
    January2023();
    var info := DatePickerMonthInfo(Date(2023, 1, 1), Sunday);
    DaysShownInOrder(info, 2023, 1, selection, today);
    SpanBounds(1, 31);
  }

  lemma {:induction false} SpanBounds(lo: int, hi: int)
    ensures forall x :: x in Span(lo, hi) ==> lo <= x < hi
    decreases hi - lo
  {
    if hi > lo {
      SpanBounds(lo, hi - 1);
    }
  }

  /**
   * With the month info as written, a Saturday-first page of June 2023 puts the
   * 1st, a Thursday, under the Wednesday label; the aligned info puts it under Thursday.
   */
  lemma SaturdayFirstAsWrittenMisaligned()
    ensures DatePickerMonthInfo(Date(2023, 6, 1), Saturday) == MonthInfo(4, 30)
    ensures DayOfWeekOf(Date(2023, 6, 1)) == Thursday
    ensures HeaderDay(Saturday, 4 % Columns) == Wednesday
    ensures AlignedMonthInfo(Date(2023, 6, 1), Saturday) == MonthInfo(5, 30)
    ensures HeaderDay(Saturday, 5 % Columns) == Thursday
  {
    June2023();
  }

  /** The grid example of a month with three leading blanks and 31 days. */
  lemma ThreeBlanksThirtyOneDays(year: int, month: int, selection: Date, today: Date)
    ensures var g := MonthGrid(MonthInfo(3, 31), year, month, selection, today);
            g[0] == g[1] == g[2] == Blank && g[3].Day? && g[3].day == 1 &&
            g[33].Day? && g[33].day == 31 && g[34] == g[35] == g[36] == Blank
  {
  }
}
