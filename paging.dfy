/**
 * Page indexing of the date picker: the month pager enumerates the months of
 * an inclusive year range, twelve pages per year, and the year grid lists the
 * years of the range, one item per year.
 */
module Paging {
  import opened Calendar

  /** The inclusive range of years the calendar offers (a Kotlin IntRange). */
  datatype YearRange = YearRange(first: int, last: int)

  datatype YearMonth = YearMonth(year: int, month: int)

  predicate InRange(r: YearRange, year: int)
  {
    r.first <= year <= r.last
  }

  /** The number of month pages of the pager: twelve for each year of the range, none for an empty one. */
  function PageCount(r: YearRange): (p: int)
    ensures p == 12 * YearCount(r)
    ensures p > 0 <==> r.first <= r.last
    ensures r.first <= r.last ==> p >= 12
  {
    (r.last - r.first + 1) * 12
  }

  /**
   * The page showing `month` of `year`: the pager's initial page and the target
   * of a year jump. A real month's page counts whole years from the start of
   * the range, twelve pages each, plus the months before it in its year.
   */
  function PageOf(r: YearRange, year: int, month: int): (p: int)
    ensures 1 <= month <= 12 ==> p / 12 == year - r.first && p % 12 == month - 1
  {
    var p := (year - r.first) * 12 + month - 1;
    assert 1 <= month <= 12 ==> p / 12 == year - r.first && p % 12 == month - 1 by {
      if 1 <= month <= 12 {
        FloorDivUnique(p, 12, year - r.first, month - 1);
      }
    }
    p
  }

  /**
   * The month a page of the pager shows (dateViewed in the header, pageDate in
   * the body). On a page that is not negative Kotlin's truncating `/` and `%`
   * agree with Dafny's; ViewedMonthAsWritten below takes any page.
   */
  function MonthOfPage(r: YearRange, page: nat): (ym: YearMonth)
    ensures 1 <= ym.month <= 12 && r.first <= ym.year
    ensures page < PageCount(r) ==> InRange(r, ym.year)
  {
    YearMonth(r.first + page / 12, page % 12 + 1)
  }

  /** The first day of the month a page shows: LocalDate.of(first + page / 12, page % 12 + 1, 1). */
  function PageDate(r: YearRange, page: nat): (d: Date)
    ensures ValidDate(d) && d.day == 1
    ensures YearMonth(d.year, d.month) == MonthOfPage(r, page)
  {
    var ym := MonthOfPage(r, page);
    Date(ym.year, ym.month, 1)
  }

  /** Every page is the page of the month it shows. */
  lemma PageOfMonthOfPage(r: YearRange, page: nat)
    ensures PageOf(r, MonthOfPage(r, page).year, MonthOfPage(r, page).month) == page
  {
  }

  /** Every month from the start of the range on is shown by its page. */
  lemma MonthOfPageOf(r: YearRange, year: int, month: int)
    requires 1 <= month <= 12 && r.first <= year
    ensures PageOf(r, year, month) >= 0
    ensures MonthOfPage(r, PageOf(r, year, month)) == YearMonth(year, month)
  {
  }

  /** A month's page is a page of the pager exactly when its year is in the range. */
  lemma PageInRange(r: YearRange, year: int, month: int)
    requires 1 <= month <= 12
    ensures 0 <= PageOf(r, year, month) < PageCount(r) <==> InRange(r, year)
  {
    var n := year - r.first;
    var c := r.last - r.first + 1;
    MulAtLeast(12, n - c + 1);
    MulAtLeast(12, -n);
    assert PageOf(r, year, month) == 12 * n + month - 1;
    assert PageCount(r) == 12 * c;
    assert 12 * (n - c + 1) == 12 * n - 12 * c + 12;
    assert 12 * (-n) == -(12 * n);
    if InRange(r, year) {
      MulAtLeast(12, c - n);
      assert 12 * (c - n) == 12 * c - 12 * n;
      MulAtLeast(12, n + 1);
      assert 12 * (n + 1) == 12 * n + 12;
    }
  }

  // ---------------------------------------------------------------------------
  // The header month with Kotlin's operators, for any page.

  /** Kotlin's Int `/`, which truncates toward zero. */
  function TruncDiv(a: int, k: int): int
    requires k > 0
  {
    if a >= 0 then a / k else -((-a) / k)
  }

  /** Kotlin's Int `%`: the remainder of TruncDiv, which takes the sign of `a`. */
  function TruncRem(a: int, k: int): (rem: int)
    requires k > 0
    ensures a == k * TruncDiv(a, k) + rem
    ensures a >= 0 ==> 0 <= rem < k
    ensures a < 0 ==> -k < rem <= 0
  {
    if a >= 0 then a % k else -((-a) % k)
  }

  /**
   * The (year, month) pair dateViewed hands to LocalDate.of for the current
   * page, computed with Kotlin's operators; LocalDate.of throws unless the
   * month is 1 to 12.
   */
  function ViewedMonthAsWritten(r: YearRange, page: int): YearMonth
  {
    YearMonth(r.first + TruncDiv(page, 12), TruncRem(page, 12) + 1)
  }

  /** On the pages of the pager the header month as written is the page's month. */
  lemma ViewedMonthOnPages(r: YearRange, page: nat)
    ensures ViewedMonthAsWritten(r, page) == MonthOfPage(r, page)
  {
  }

  /**
   * An initial date before the range, in any month but January, gives a
   * negative initial page whose header month is month - 12, not a month at
   * all: LocalDate.of refuses it.
   */
  lemma ViewedMonthBeforeRange(r: YearRange, year: int, month: int)
    requires year < r.first && 2 <= month <= 12
    ensures PageOf(r, year, month) < 0
    ensures ViewedMonthAsWritten(r, PageOf(r, year, month)).month == month - 12
  {
    var p := PageOf(r, year, month);
    MulAtLeast(12, r.first - year);
    assert p == -(12 * (r.first - year)) + month - 1;
    FloorDivUnique(-p, 12, r.first - year - 1, 13 - month);
  }

  /** December 1899 before a range starting in 1900: page -1 and month 0. */
  lemma ViewedMonthBeforeRangeExample()
    ensures PageOf(YearRange(1900, 2100), 1899, 12) == -1
    ensures ViewedMonthAsWritten(YearRange(1900, 2100), -1) == YearMonth(1900, 0)
  {
  }

  /** An initial date after the range gives an initial page at or past the page count. */
  lemma InitialPageAfterRange(r: YearRange, year: int, month: int)
    requires r.first <= r.last < year && 1 <= month <= 12
    ensures PageOf(r, year, month) >= PageCount(r)
  {
    PageInRange(r, year, month);
    MulAtLeast(12, year - r.first);
  }

  // ---------------------------------------------------------------------------
  // Previous / next buttons of the calendar header.

  /** onPrevious: go back a page unless already at page 0. */
  function PreviousPage(page: int): (p: int)
    ensures page > 0 ==> p == page - 1
    ensures page <= 0 ==> p == page
    ensures 0 <= page ==> 0 <= p
  {
    if page > 0 then page - 1 else page
  }

  /** onNext as written: the guard `currentPage <= pageCount` lets the page reach pageCount and one beyond. */
  function NextPageAsWritten(page: int, pageCount: int): (p: int)
    ensures page <= pageCount ==> p == page + 1
    ensures page > pageCount ==> p == page
  {
    if page <= pageCount then page + 1 else page
  }

  /** From the last page, the guard as written moves past the last page, and then once more. */
  lemma NextAsWrittenLeavesPager(r: YearRange)
    requires r.first <= r.last
    ensures var last := PageCount(r) - 1;
            NextPageAsWritten(last, PageCount(r)) == PageCount(r) &&
            NextPageAsWritten(PageCount(r), PageCount(r)) == PageCount(r) + 1 &&
            !(0 <= NextPageAsWritten(last, PageCount(r)) < PageCount(r))
  {
  }

  /** onNext with the guard the previous button mirrors: advance unless on the last page. */
  function NextPage(page: int, pageCount: int): (p: int)
    ensures page + 1 < pageCount ==> p == page + 1
    ensures page + 1 >= pageCount ==> p == page
    ensures 0 <= page < pageCount ==> 0 <= p < pageCount
  {
    if page + 1 < pageCount then page + 1 else page
  }

  /** Inside the pager the corrected guard differs from the one as written only on the last page. */
  lemma NextPageAgreesBelowLast(page: int, pageCount: int)
    requires 0 <= page < pageCount
    ensures NextPage(page, pageCount) == NextPageAsWritten(page, pageCount) <==> page + 1 < pageCount
  {
  }

  // ---------------------------------------------------------------------------
  // The year grid.

  /** The number of items of the year grid: one per year of the range, none for an empty range. */
  function YearCount(r: YearRange): (c: int)
    ensures c >= 1 <==> r.first <= r.last
    ensures r.first <= r.last ==> r.first + c - 1 == r.last
  {
    r.last - r.first + 1
  }

  /** One item of the year grid: its year, and whether it is highlighted. */
  datatype YearItem = YearItem(year: int, selected: bool)

  /** Item k shows year first + k and is highlighted iff that is the selected year. */
  function YearGrid(r: YearRange, selectedYear: int): (items: seq<YearItem>)
    requires r.first <= r.last
    ensures |items| == YearCount(r)
    ensures forall k :: 0 <= k < |items| ==> InRange(r, items[k].year)
    ensures forall k :: 0 <= k < |items| ==> items[k].year == r.first + k
    ensures forall k :: 0 <= k < |items| ==> (items[k].selected <==> items[k].year == selectedYear)
  {
    seq(YearCount(r), k requires 0 <= k < YearCount(r) => YearItem(r.first + k, r.first + k == selectedYear))
  }

  /** The index of a year in the year grid (the grid's first visible item). */
  function YearIndex(r: YearRange, year: int): (k: int)
    ensures InRange(r, year) <==> 0 <= k < YearCount(r)
    ensures r.first + k == year
  {
    year - r.first
  }

  /** A year of the range is highlighted at its own index and nowhere else; a year outside it nowhere. */
  lemma YearGridHighlightsSelection(r: YearRange, selectedYear: int)
    requires r.first <= r.last
    ensures var items := YearGrid(r, selectedYear);
            forall k :: 0 <= k < |items| ==> (items[k].selected <==> k == YearIndex(r, selectedYear))
    ensures InRange(r, selectedYear) ==> YearGrid(r, selectedYear)[YearIndex(r, selectedYear)] == YearItem(selectedYear, true)
  {
  }
}
