/**
 * The date picker dialog: a tentative selection, the body it shows (the month
 * pager, the year grid or the text field), the pager's current page and the
 * text field, all driven by the dialog's event callbacks. The host hears of
 * the selection only through the single onSelectDate call of the OK button.
 */
module Picker {
  import opened Calendar
  import opened Paging
  import opened Grid
  import opened DateText

  /** What the dialog's body shows: showPicker and showYearPicker together. */
  datatype Mode = CalendarMode | YearPickerMode | TextMode

  // ---------------------------------------------------------------------------
  // Live commit of the text field.

  /**
   * The date the text field accepts: its parse, when that parse is a date of
   * the year range, which the calendar's pages need.
   */
  function AcceptedDate(r: YearRange, text: string): (a: Option<Date>)
    ensures a.Some? <==> Parse(text).Some? && InRange(r, Parse(text).value.year)
    ensures a.Some? ==> a == Parse(text) && ValidDate(a.value) && InRange(r, a.value.year)
  {
    match Parse(text)
    case Some(d) => if InRange(r, d.year) then Some(d) else None
    case None => None
  }

  /**
   * The selection after the text field shows `text`: the accepted date, or the
   * selection unchanged. It stays a valid date of the range.
   */
  function Commit(r: YearRange, text: string, selection: Date): (d: Date)
    requires ValidDate(selection) && InRange(r, selection.year)
    ensures ValidDate(d) && InRange(r, d.year)
    ensures AcceptedDate(r, text).Some? ==> d == Parse(text).value
    ensures AcceptedDate(r, text).None? ==> d == selection
  {
    match AcceptedDate(r, text)
    case Some(p) => p
    case None => selection
  }

  /**
   * The text field as written: every successful parse is committed, whatever
   * its year, and the error flag is raised only when parsing fails.
   */
  function CommitAsWritten(text: string, selection: Date): (d: Date)
    requires ValidDate(selection)
    ensures ValidDate(d)
    ensures Parse(text).Some? ==> d == Parse(text).value
    ensures Parse(text).None? ==> d == selection
  {
    match Parse(text)
    case Some(p) => p
    case None => selection
  }

  /**
   * As written, typing a date before the range commits it, and the calendar
   * it returns to opens on a page before the first one.
   */
  lemma CommitAsWrittenLeavesRange()
    ensures var r := YearRange(1900, 2100);
            var d := CommitAsWritten("1899-12-01", Date(2000, 1, 1));
            d == Date(1899, 12, 1) && PageOf(r, d.year, d.month) == -1 &&
            !(0 <= PageOf(r, d.year, d.month) < PageCount(r))
  {
    ParseFieldsText(1899, 12, 1);
    assert FieldsText(1899, 12, 1) == "1899-12-01";
  }

  /** Both commits agree on every text whose parse lies in the range. */
  lemma CommitAgreesInRange(r: YearRange, text: string, selection: Date)
    requires ValidDate(selection) && InRange(r, selection.year)
    requires Parse(text).None? || InRange(r, Parse(text).value.year)
    ensures Commit(r, text, selection) == CommitAsWritten(text, selection)
  {
  }

  /**
   * Seeding the text field with the formatted selection commits the selection
   * itself and raises no error: format and parse round-trip.
   */
  lemma SeedKeepsSelection(r: YearRange, d: Date)
    requires ValidDate(d) && InRange(r, d.year) && 1 <= d.year <= MaxYear
    ensures AcceptedDate(r, Format(d)) == Some(d)
    ensures Commit(r, Format(d), d) == d
  {
    ParseFormat(d);
  }

  // ---------------------------------------------------------------------------
  // The dialog.

  class DatePickerDialog {
    /** yearRange, the locale's first day of the week, and LocalDate.now() when the calendar opened. */
    const range: YearRange
    const firstDayOfWeek: DayOfWeek
    const today: Date

    /** The host's dialog state (state.value). */
    var open: bool
    /** The tentative selection. */
    var dateSelected: Date
    var mode: Mode
    /** The pager's current page. */
    var page: int
    /** The text field's contents and its error flag, while in text mode. */
    var text: string
    var isValidationError: bool
    /** The dates passed to onSelectDate so far. */
    var emitted: seq<Date>

    ghost predicate Valid()
      reads this
    {
      range.first <= range.last &&
      ValidDate(dateSelected) && InRange(range, dateSelected.year) &&
      0 <= page < PageCount(range) &&
      (mode == TextMode ==> isValidationError == AcceptedDate(range, text).None?) &&
      (mode == TextMode && AcceptedDate(range, text).Some? ==> dateSelected == AcceptedDate(range, text).value) &&
      |emitted| <= 1 && (open ==> emitted == [])
    }

    constructor (range: YearRange, firstDayOfWeek: DayOfWeek, today: Date, initialDate: Date)
      requires range.first <= range.last
      requires ValidDate(initialDate) && InRange(range, initialDate.year)
      ensures Valid() && open && emitted == []
      ensures this.range == range && this.firstDayOfWeek == firstDayOfWeek && this.today == today
      ensures dateSelected == initialDate && mode == CalendarMode
      ensures page == PageOf(range, initialDate.year, initialDate.month)
      ensures ViewedMonth() == YearMonth(initialDate.year, initialDate.month)
    {
      this.range := range;
      this.firstDayOfWeek := firstDayOfWeek;
      this.today := today;
      open := true;
      dateSelected := initialDate;
      mode := CalendarMode;
      PageInRange(range, initialDate.year, initialDate.month);
      MonthOfPageOf(range, initialDate.year, initialDate.month);
      page := PageOf(range, initialDate.year, initialDate.month);
      text := "";
      isValidationError := false;
      emitted := [];
    }

    /** The month the calendar header shows (dateViewed). */
    function ViewedMonth(): (ym: YearMonth)
      reads this
      requires 0 <= page
      ensures 1 <= ym.month <= 12
      ensures page < PageCount(range) ==> InRange(range, ym.year)
    {
      MonthOfPage(range, page)
    }

    /** The cells of the current month page. */
    function CurrentGrid(): (g: seq<Slot>)
      reads this
      requires Valid()
      ensures |g| == SlotCount
      ensures DaysShown(g) == Span(1, MonthLength(ViewedMonth().year, ViewedMonth().month) + 1)
    {
      PageGrid(range, page, firstDayOfWeek, dateSelected, today)
    }

    /** The items of the year grid. */
    function YearItems(): (items: seq<YearItem>)
      reads this
      requires Valid()
      ensures |items| == YearCount(range)
      ensures items[YearIndex(range, dateSelected.year)] == YearItem(dateSelected.year, true)
    {
      YearGridHighlightsSelection(range, dateSelected.year);
      YearGrid(range, dateSelected.year)
    }

    /**
     * The edit icon. Text mode is entered with the formatted selection, which
     * is parsed and committed at once; leaving it rebuilds the calendar from
     * scratch on the selection's month, with the year grid closed.
     */
    method ToggleEditMode()
      requires Valid() && open
      modifies this
      ensures Valid() && open && emitted == old(emitted)
      ensures old(mode) == TextMode ==>
                mode == CalendarMode && dateSelected == old(dateSelected) &&
                ViewedMonth() == YearMonth(dateSelected.year, dateSelected.month) &&
                text == old(text) && isValidationError == old(isValidationError)
      ensures old(mode) != TextMode ==>
                mode == TextMode && page == old(page) &&
                text == Format(old(dateSelected)) &&
                isValidationError == AcceptedDate(range, text).None? &&
                dateSelected == Commit(range, text, old(dateSelected))
    {
      if mode == TextMode {
        mode := CalendarMode;
        PageInRange(range, dateSelected.year, dateSelected.month);
        MonthOfPageOf(range, dateSelected.year, dateSelected.month);
        page := PageOf(range, dateSelected.year, dateSelected.month);
      } else {
        text := Format(dateSelected);
        isValidationError := AcceptedDate(range, text).None?;
        dateSelected := Commit(range, text, dateSelected);
        mode := TextMode;
      }
    }

    /** The year button of the calendar header: open or close the year grid. */
    method ToggleYearPicker()
      requires Valid() && open && mode != TextMode
      modifies this`mode
      ensures Valid()
      ensures mode == if old(mode) == CalendarMode then YearPickerMode else CalendarMode
    {
      mode := if mode == CalendarMode then YearPickerMode else CalendarMode;
    }

    /** The previous-month button. */
    method Previous()
      requires Valid() && open && mode == CalendarMode
      modifies this`page
      ensures Valid()
      ensures page == PreviousPage(old(page))
    {
      page := PreviousPage(page);
    }

    /** The next-month button, with the guard that keeps the page in the pager. */
    method Next()
      requires Valid() && open && mode == CalendarMode
      modifies this`page
      ensures Valid()
      ensures page == NextPage(old(page), PageCount(range))
    {
      page := NextPage(page, PageCount(range));
    }

    /** A swipe of the pager to page p. */
    method Swipe(p: int)
      requires Valid() && open && mode == CalendarMode && 0 <= p < PageCount(range)
      modifies this`page
      ensures Valid() && page == p
    {
      page := p;
    }

    /** A tap on day cell i of the current page selects the date it shows. */
    method SelectDay(i: int)
      requires Valid() && open && mode == CalendarMode
      requires 0 <= i < SlotCount && CurrentGrid()[i].Day?
      modifies this`dateSelected
      ensures Valid()
      ensures dateSelected == Date(ViewedMonth().year, ViewedMonth().month, old(CurrentGrid()[i].day))
      ensures CurrentGrid()[i].selected
      ensures forall j :: 0 <= j < SlotCount && j != i ==> !(CurrentGrid()[j].Day? && CurrentGrid()[j].selected)
    {
      var pageDate := PageDate(range, page);
      var info := PageMonthInfo(range, page, firstDayOfWeek);
      TapSelectsCell(info, pageDate.year, pageDate.month, today, i);
      dateSelected := TapDate(info, pageDate.year, pageDate.month, i);
    }

    /** A tap on a year of the year grid: close the grid and show that year's page of the selected month. */
    method SelectYear(year: int)
      requires Valid() && open && mode == YearPickerMode && InRange(range, year)
      modifies this`mode, this`page
      ensures Valid() && mode == CalendarMode
      ensures page == PageOf(range, year, dateSelected.month)
      ensures ViewedMonth() == YearMonth(year, dateSelected.month)
    {
      mode := CalendarMode;
      PageInRange(range, year, dateSelected.month);
      MonthOfPageOf(range, year, dateSelected.month);
      page := PageOf(range, year, dateSelected.month);
    }

    /** An edit of the text field: re-parse, flag the error, and commit a date that is accepted. */
    method EditText(s: string)
      requires Valid() && open && mode == TextMode
      modifies this`text, this`isValidationError, this`dateSelected
      ensures Valid() && text == s
      ensures isValidationError <==> AcceptedDate(range, s).None?
      ensures AcceptedDate(range, s).Some? ==> dateSelected == AcceptedDate(range, s).value
      ensures AcceptedDate(range, s).None? ==> dateSelected == old(dateSelected)
    {
      text := s;
      isValidationError := AcceptedDate(range, s).None?;
      dateSelected := Commit(range, s, dateSelected);
    }

    /** The OK button: hand the selection to onSelectDate, then close. */
    method Confirm()
      requires Valid() && open
      modifies this`emitted, this`open
      ensures Valid() && !open
      ensures emitted == [dateSelected]
    {
      emitted := emitted + [dateSelected];
      open := false;
    }

    /** The Cancel button, and a dismissal of the dialog: close without a call. */
    method Cancel()
      requires Valid() && open
      modifies this`open
      ensures Valid() && !open && emitted == []
    {
      open := false;
    }
  }

  /**
   * Two sessions on June 2023 with Monday first: a tap on cell 22 and "OK"
   * hands exactly 20 June 2023 to the caller; the same tap and "Cancel" hand
   * over nothing.
   */
  method ConfirmAndCancel() returns (confirmed: seq<Date>, cancelled: seq<Date>)
    ensures confirmed == [Date(2023, 6, 20)]
    ensures cancelled == []
  {
    var dialog := new DatePickerDialog(YearRange(2000, 2030), Monday, Date(2023, 6, 15), Date(2023, 6, 15));
    assert dialog.ViewedMonth() == YearMonth(2023, 6);
    assert AlignedMonthInfo(Date(2023, 6, 1), Monday) == MonthInfo(3, 30);
    assert dialog.CurrentGrid()[22].Day?;
    dialog.SelectDay(22);
    dialog.Confirm();
    confirmed := dialog.emitted;

    var other := new DatePickerDialog(YearRange(2000, 2030), Monday, Date(2023, 6, 15), Date(2023, 6, 15));
    assert other.CurrentGrid()[22].Day?;
    other.SelectDay(22);
    other.Cancel();
    cancelled := other.emitted;
  }
}
