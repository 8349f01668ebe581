# ComposeDatePicker calendar engine in Dafny

This project models the logic of the Jetpack Compose date picker dialog of
ComposeDatePicker, and proves properties of that model. The model covers:

- the month info (leading blank cells and day count) that lays a month out on
  a week-aligned grid;
- the pager that shows one page per month of an inclusive year range, with its
  previous and next buttons;
- the year grid and the jump to a year;
- the 37-cell month page, with its selected and today marks and the taps on
  day cells;
- the `yyyy-MM-dd` text field: its seed text, the parse of each edit, the
  error flag, and the live commit of every accepted date, that is, every
  parsed date whose year is in the range;
- the dialog itself. It keeps a tentative selection, switches between the
  calendar, the year grid and the text field, hands the selection to
  `onSelectDate` on OK, and closes without a call on Cancel or dismissal.

The modules follow the program's structure:

- `Calendar` (`calendar.dfy`): Gregorian dates, weekdays and
  `getDatePickerMonthInfo`. The weekday comes from a day count starting at
  0001-01-01, a Monday. It is proved to advance by one from each date to the
  next, and to agree with java.time's epoch-day formula.
- `Paging` (`paging.dfy`): page arithmetic, the previous and next guards, and
  the year grid.
- `Grid` (`grid.dfy`): the cells of a month page.
- `DateText` (`datetext.dfy`): `toDateString` and `LocalDate.parse` for the
  pattern `yyyy-MM-dd`. This covers year of era, zero padding, the '+' sign of
  years past 9999, the strict year field (exactly four digits without a sign,
  five to nineteen after a '+'), and the SMART
  resolver, which reduces day 29..31 to the month's last day.
- `Picker` (`picker.dfy`): the dialog as a class. Its fields are the Compose
  state: `state.value`, `dateSelected`, `showPicker`/`showYearPicker`,
  `pagerState.currentPage`, and the text field value with its error flag.
  Each callback is a method with `modifies`.

`Valid()` is the class invariant that every method keeps. It says:

- the selection is a valid date of the range;
- the page is a page of the pager;
- in text mode, the error flag is up exactly when the text is not accepted;
- an accepted text is the selection.

Both core DatePicker.kt files hold the same logic; the rows below cite the
date-picker copy. The date-time-picker copy has these corresponding lines:

| concern | date-time-picker lines |
|---|---|
| dialog state | 62-65 |
| edit toggle | 88-92 |
| OK / Cancel | 133-147 |
| initial page, page count, viewed month | 172-184 |
| previous / next | 191-202 |
| year jump | 211-215 |
| year grid | 295-320 |
| month page | 349-378 |
| text field | 460-495 |

The date-picker module imports its own TimeUtils, which is not part of this
model. The date-time-picker TimeUtils.kt is.

Where the code and the component's descriptions disagree, the model follows
the code:

- selecting a year keeps `dateSelected` as it is, and only moves the pager;
- leaving the text field rebuilds the calendar from scratch, because Compose
  discards its state when it leaves the composition. The pager then opens on
  the selection's month, with the year grid closed;
- the edit icon toggles `showPicker` alone, so it is also available while the
  year grid is open.

Three places where the code is evidently wrong are listed under "## Findings".
For each one, the model has a member that follows the code as written and a
lemma that shows the fault. The dialog class does not use those members. It
uses the corrected ones:

- `Calendar.AlignedMonthInfo` lays out its pages;
- `Paging.NextPage` is its next guard;
- `Picker.AcceptedDate` and `Picker.Commit` drive its text field.

The rows marked "corrected" below state properties of the corrected behaviour.

## Model

| member | source | states |
|---|---|---|
| Calendar.DayOfWeek.Plus | date-picker/src/main/java/com/andlill/datepicker/DatePicker.kt:365 | the header label of column k is k days after the first day of the week, cyclically mod 7 |
| Calendar.DayOfWeekOfValue | date-time-picker/src/main/java/com/andlill/datetimepicker/TimeUtils.kt:24 | DayOfWeek.of: the day of the week with the given ISO number 1..7 |
| Calendar.MonthLength | date-time-picker/src/main/java/com/andlill/datetimepicker/TimeUtils.kt:23 | month.length(isLeapYear) is between 28 and 31 days |
| Calendar.FebruaryLengths | date-time-picker/src/main/java/com/andlill/datetimepicker/TimeUtils.kt:23 | February has 29 days in 2000 and 2024, and 28 in 1900 and 2023 (the Gregorian century rule) |
| Calendar.FirstOfMonth | date-time-picker/src/main/java/com/andlill/datetimepicker/TimeUtils.kt:24 | withDayOfMonth(1) is a valid date of the same year and month, on day 1 |
| Calendar.NextDay | date-time-picker/src/main/java/com/andlill/datetimepicker/TimeUtils.kt:24 | the day after a valid date is a valid date |
| Calendar.YearLengthIsLeap | date-time-picker/src/main/java/com/andlill/datetimepicker/TimeUtils.kt:23 | a year has 366 days exactly when it is a leap year |
| Calendar.DaysBeforeYearStep | date-time-picker/src/main/java/com/andlill/datetimepicker/TimeUtils.kt:24 | the closed-form count of days before a year grows by that year's length |
| Calendar.NextDayNumber | date-time-picker/src/main/java/com/andlill/datetimepicker/TimeUtils.kt:24 | consecutive dates have consecutive day numbers, across month and year ends |
| Calendar.DayOfWeekOfNextDay | date-time-picker/src/main/java/com/andlill/datetimepicker/TimeUtils.kt:24 | the weekday of the next day is the weekday plus one |
| Calendar.DayOfWeekAtStep | date-time-picker/src/main/java/com/andlill/datetimepicker/TimeUtils.kt:24 | the weekday of day number n + 1 is the weekday of day n plus one |
| Calendar.DaysBackToWeekday | date-time-picker/src/main/java/com/andlill/datetimepicker/TimeUtils.kt:24-30 | going back (weekday of day n minus f) mod 7 days from day n lands on weekday f, the offset the grid needs |
| Calendar.IsLeapYear | date-time-picker/src/main/java/com/andlill/datetimepicker/TimeUtils.kt:23 | a year divisible by 400 is a leap year; one not divisible by 4, or divisible by 100 but not 400, is not |
| Calendar.LeapYearPeriod | date-time-picker/src/main/java/com/andlill/datetimepicker/TimeUtils.kt:23 | the leap-year rule repeats every 400 years |
| Calendar.DayOfWeekOf | date-time-picker/src/main/java/com/andlill/datetimepicker/TimeUtils.kt:24 | the weekday of a date is java.time's floorMod(epochDay + 3, 7) + 1, with epoch day 0 at day number 719162 |
| Calendar.AgreesWithEpochDay | date-time-picker/src/main/java/com/andlill/datetimepicker/TimeUtils.kt:24 | 0001-01-01 is day 0 and a Monday; 1970-01-01, java.time's epoch day 0, is day 719162 and a Thursday |
| Calendar.DatePickerMonthInfo | date-time-picker/src/main/java/com/andlill/datetimepicker/TimeUtils.kt:22-31 | as written. The day count is the month length. Monday-first: offset 0..6 and the first cell is a Monday. Otherwise: offset 1..7, the first cell is a Sunday, and the offset is 7 exactly when day 1 is a Sunday |
| Calendar.AlignedMonthInfo | date-time-picker/src/main/java/com/andlill/datetimepicker/TimeUtils.kt:22-31 | corrected. The day count is the month length, offset 0..6, offset + dayCount <= 37, and the first cell falls on the locale's first day of the week |
| Calendar.MonthInfoIgnoresDay | date-time-picker/src/main/java/com/andlill/datetimepicker/TimeUtils.kt:23-24 | both month infos depend only on the date's year and month |
| Calendar.MondayFirstIsAligned | date-time-picker/src/main/java/com/andlill/datetimepicker/TimeUtils.kt:27-28 | for a Monday-first locale, the code as written equals the aligned month info |
| Calendar.SundayFirstDiffersOnSundayStarts | date-time-picker/src/main/java/com/andlill/datetimepicker/TimeUtils.kt:26-30 | Sunday-first: the code as written and the aligned info differ exactly on months starting on a Sunday, with offset 7 instead of 0 |
| Calendar.January2023 | date-picker/src/main/java/com/andlill/datepicker/DatePicker.kt:388-389 | 2023-01-01 is a Sunday. Monday-first gives (6, 31), which fills all 37 cells. Sunday-first as written gives (7, 31); aligned gives (0, 31) |
| Calendar.June2023 | date-time-picker/src/main/java/com/andlill/datetimepicker/TimeUtils.kt:22-31 | 2023-06-01 is a Thursday. Saturday-first as written gives offset 4, aligned gives 5; Monday-first gives 3 |
| Paging.YearCount | date-picker/src/main/java/com/andlill/datepicker/DatePicker.kt:325 | the year grid has at least one item exactly when the range is not empty, and then its last item is the range's last year |
| Paging.PageCount | date-picker/src/main/java/com/andlill/datepicker/DatePicker.kt:187-189 | twelve pages per year of the range: a non-empty range has at least 12 pages, an empty one none |
| Paging.PageOf | date-picker/src/main/java/com/andlill/datepicker/DatePicker.kt:184-186 | a real month's page is twelve pages per whole year from the range's start, plus the months before it in its year (floor quotient and remainder by 12) |
| Paging.MonthOfPage | date-picker/src/main/java/com/andlill/datepicker/DatePicker.kt:190-196 | dateViewed is a month 1..12 of a year from the range's start; the year is in the range for every page of the pager |
| Paging.PageDate | date-picker/src/main/java/com/andlill/datepicker/DatePicker.kt:373-379 | pageDate is a valid date, on day 1 of the page's month |
| Paging.PageOfMonthOfPage | date-picker/src/main/java/com/andlill/datepicker/DatePicker.kt:184-196 | every page is the initial page of the month it shows |
| Paging.TruncRem | date-picker/src/main/java/com/andlill/datepicker/DatePicker.kt:190-196 | Kotlin's `%` takes the sign of the dividend, and with Kotlin's `/` it rebuilds the dividend |
| Paging.ViewedMonthOnPages | date-picker/src/main/java/com/andlill/datepicker/DatePicker.kt:190-196 | on the pages of the pager, dateViewed computed with Kotlin's operators is the page's month |
| Paging.ViewedMonthBeforeRange | date-picker/src/main/java/com/andlill/datepicker/DatePicker.kt:184-196 | an initial date before the range, in February to December, gives a negative initial page and a header month of month - 12, which LocalDate.of refuses |
| Paging.ViewedMonthBeforeRangeExample | date-picker/src/main/java/com/andlill/datepicker/DatePicker.kt:184-196 | with yearRange 1900..2100, December 1899 gives page -1 and LocalDate.of(1900, 0, 1) |
| Paging.InitialPageAfterRange | date-picker/src/main/java/com/andlill/datepicker/DatePicker.kt:184-189 | an initial date after the range gives an initial page at or past pageCount |
| Paging.MonthOfPageOf | date-picker/src/main/java/com/andlill/datepicker/DatePicker.kt:184-196 | the initial page of a month from the range's start on shows that month |
| Paging.PageInRange | date-picker/src/main/java/com/andlill/datepicker/DatePicker.kt:184-189 | a month's page lies in [0, pageCount) exactly when its year is in yearRange |
| Paging.PreviousPage | date-picker/src/main/java/com/andlill/datepicker/DatePicker.kt:204-209 | onPrevious moves back one page unless on page 0, and never goes below 0 |
| Paging.NextPageAsWritten | date-picker/src/main/java/com/andlill/datepicker/DatePicker.kt:210-215 | as written, the guard `currentPage <= pageCount` advances from every page up to pageCount itself |
| Paging.NextAsWrittenLeavesPager | date-picker/src/main/java/com/andlill/datepicker/DatePicker.kt:210-215 | from the last page the guard as written targets pageCount and then pageCount + 1, outside the pager |
| Paging.NextPage | date-picker/src/main/java/com/andlill/datepicker/DatePicker.kt:210-215 | corrected: advances unless on the last page, and keeps every page of the pager in the pager |
| Paging.NextPageAgreesBelowLast | date-picker/src/main/java/com/andlill/datepicker/DatePicker.kt:210-215 | inside the pager the two guards agree exactly below the last page |
| Paging.YearGrid | date-picker/src/main/java/com/andlill/datepicker/DatePicker.kt:325-337 | one item per year of the range. Item k shows year first + k, and is highlighted exactly when that is the selected year |
| Paging.YearIndex | date-picker/src/main/java/com/andlill/datepicker/DatePicker.kt:315-317 | the first visible item is the selected year's index, which is in the grid exactly when the year is in the range |
| Paging.YearGridHighlightsSelection | date-picker/src/main/java/com/andlill/datepicker/DatePicker.kt:325-337 | exactly one item is highlighted, at the selected year's index, when the year is in the range; otherwise none is |
| Grid.HeaderDay | date-picker/src/main/java/com/andlill/datepicker/DatePicker.kt:358-365 | header column 0, and every seventh column after it, shows the first day of the week |
| Grid.HeaderColumnsDistinct | date-picker/src/main/java/com/andlill/datepicker/DatePicker.kt:358-365 | the seven header columns show seven different days |
| Grid.MonthGrid | date-picker/src/main/java/com/andlill/datepicker/DatePicker.kt:390-404 | 37 cells. A cell is a day exactly for offset <= i < offset + dayCount, and shows day i + 1 - offset, carrying the selected and today marks for the page's month |
| Grid.DaysShownInOrder | date-picker/src/main/java/com/andlill/datepicker/DatePicker.kt:388-404 | the cells show days 1, 2, .. in order with no gaps or repeats, as many as fit after the blanks, and all days when offset + dayCount <= 37 |
| Grid.ColumnsMatchHeader | date-picker/src/main/java/com/andlill/datepicker/DatePicker.kt:358-404 | with the aligned month info, every day falls on the weekday of the header label of its column, i mod 7 |
| Grid.MarkedCell | date-picker/src/main/java/com/andlill/datepicker/DatePicker.kt:395-396 | a cell is selected (or today) exactly when that date is in the page's month and the cell is at offset + day - 1 |
| Grid.MarksIndependent | date-picker/src/main/java/com/andlill/datepicker/DatePicker.kt:395-396 | the selected mark does not depend on today, nor the today mark on the selection |
| Grid.TapDate | date-picker/src/main/java/com/andlill/datepicker/DatePicker.kt:399-401 | a tapped day cell gives a valid date of the page's year and month |
| Grid.TapSelectsCell | date-picker/src/main/java/com/andlill/datepicker/DatePicker.kt:395-401 | after a tap, the tapped cell, and no other, carries the selected mark, and it shows the tapped day |
| Grid.PageMonthInfo | date-picker/src/main/java/com/andlill/datepicker/DatePicker.kt:380-382 | corrected: a page's month info has the page month's length and fits the 37 cells |
| Grid.PageGrid | date-picker/src/main/java/com/andlill/datepicker/DatePicker.kt:372-404 | corrected: every page shows each day of its month exactly once, in order |
| Grid.SundayFirstAsWrittenDropsLastDay | date-picker/src/main/java/com/andlill/datepicker/DatePicker.kt:388-391 | with the month info as written, a Sunday-first page of January 2023 shows days 1..30 and has no cell for the 31st |
| Grid.SaturdayFirstAsWrittenMisaligned | date-picker/src/main/java/com/andlill/datepicker/DatePicker.kt:365-391 | as written, Saturday-first June 2023 puts the 1st, a Thursday, under the Wednesday label; the aligned info puts it under Thursday |
| Grid.ThreeBlanksThirtyOneDays | date-picker/src/main/java/com/andlill/datepicker/DatePicker.kt:390-404 | offset 3 with 31 days: three blanks, days 1..31 in cells 3..33, and three blanks |
| DateText.YearOfEra | date-time-picker/src/main/java/com/andlill/datetimepicker/TimeUtils.kt:12-15 | the year the pattern prints is the year of the era, at least 1 |
| DateText.LongYearText | date-time-picker/src/main/java/com/andlill/datetimepicker/TimeUtils.kt:12-15 | a year past 9999 prints as '+' and its 5 to 9 digits, which spell the year |
| DateText.ShortYearText | date-time-picker/src/main/java/com/andlill/datetimepicker/TimeUtils.kt:12-15 | a year of 1..9999 prints as four zero-padded digits that spell the year |
| DateText.FormatYear | date-time-picker/src/main/java/com/andlill/datetimepicker/TimeUtils.kt:12-15 | the year field has at least four characters; it starts with '+' exactly when the year of the era passes 9999, and has exactly four otherwise |
| DateText.Format | date-time-picker/src/main/java/com/andlill/datetimepicker/TimeUtils.kt:12-15 | the text is at least as long as the pattern "yyyy-MM-dd", exactly as long when the year of the era has at most four digits, and ends in '-', two digits spelling the month, '-', two digits spelling the day |
| DateText.Resolve | date-picker/src/main/java/com/andlill/datepicker/DatePicker.kt:428-435 | the resolver accepts exactly years 1..999999999, months 1..12 and days 1..31. It returns a valid date, exact when the day exists |
| DateText.Parse | date-picker/src/main/java/com/andlill/datepicker/DatePicker.kt:428-435 | a successful parse is a valid date with a year in 1..999999999 |
| DateText.ParseFieldsText | date-picker/src/main/java/com/andlill/datepicker/DatePicker.kt:428-435 | parsing the printed year, month and day passes them unchanged to the resolver |
| DateText.ParseFormat | date-time-picker/src/main/java/com/andlill/datetimepicker/TimeUtils.kt:12-15 | round trip: parsing the formatted text of a date in years 1..999999999 gives the date back |
| DateText.ParseResolvesDays | date-picker/src/main/java/com/andlill/datepicker/DatePicker.kt:428-435 | day 29..31 past the month's end becomes its last day; month 0 or 13+, day 0 or 32+ are refused |
| DateText.FormatLosesEra | date-time-picker/src/main/java/com/andlill/datetimepicker/TimeUtils.kt:12-15 | year 0 prints as year 1, and parses back as year 1 |
| DateText.FormatExample | date-time-picker/src/main/java/com/andlill/datetimepicker/TimeUtils.kt:12-15 | 2023-07-04 prints as "2023-07-04" and parses back |
| DateText.ParseRefusesUnsignedLongYear | date-picker/src/main/java/com/andlill/datepicker/DatePicker.kt:428-435 | a text starting with five digits is refused: a year of more than four digits needs its '+' |
| DateText.ParseRefusesSignedShortYear | date-picker/src/main/java/com/andlill/datepicker/DatePicker.kt:428-435 | a '+' before a year of at most four digits is refused |
| DateText.ParseRefusesPaddedYear | date-picker/src/main/java/com/andlill/datepicker/DatePicker.kt:428-435 | "02023-01-01" is refused |
| DateText.ParseRefusesUnsignedFiveDigitYear | date-picker/src/main/java/com/andlill/datepicker/DatePicker.kt:428-435 | "12345-01-01" is refused |
| DateText.ParseRejectsMonth13 | date-picker/src/main/java/com/andlill/datepicker/DatePicker.kt:428-435 | "2023-13-01" is refused |
| DateText.ParseRejectsMalformed | date-picker/src/main/java/com/andlill/datepicker/DatePicker.kt:428-435 | "not-a-date" and the partly typed "2023-1-0" are refused |
| DateText.ParseClampsDay | date-picker/src/main/java/com/andlill/datepicker/DatePicker.kt:428-435 | "2023-02-30" parses as 2023-02-28 |
| Picker.CommitAsWritten | date-picker/src/main/java/com/andlill/datepicker/DatePicker.kt:428-447 | as written, every successful parse becomes the selection, and a failed one leaves it as it is |
| Picker.CommitAsWrittenLeavesRange | date-picker/src/main/java/com/andlill/datepicker/DatePicker.kt:445-447 | with yearRange 1900..2100, typing "1899-12-01" commits 1899-12-01, whose initial page is -1, outside the pager |
| Picker.AcceptedDate | date-picker/src/main/java/com/andlill/datepicker/DatePicker.kt:428-438 | corrected: the text is accepted exactly when it parses to a date whose year is in the range |
| Picker.Commit | date-picker/src/main/java/com/andlill/datepicker/DatePicker.kt:445-447 | corrected: the accepted date becomes the selection, otherwise nothing changes, and the selection stays a valid date of the range |
| Picker.CommitAgreesInRange | date-picker/src/main/java/com/andlill/datepicker/DatePicker.kt:428-447 | the two commits agree on every text whose parse, if any, is in the range |
| Picker.SeedKeepsSelection | date-picker/src/main/java/com/andlill/datepicker/DatePicker.kt:420-447 | the seed text (the formatted selection) is accepted, raises no error, and commits the selection itself |
| Picker.DatePickerDialog.constructor | date-picker/src/main/java/com/andlill/datepicker/DatePicker.kt:63-69 | the dialog opens on initialDate in calendar mode, on that month's page, with nothing emitted |
| Picker.DatePickerDialog.ViewedMonth | date-picker/src/main/java/com/andlill/datepicker/DatePicker.kt:190-196 | the header month is in the range on every page of the pager |
| Picker.DatePickerDialog.CurrentGrid | date-picker/src/main/java/com/andlill/datepicker/DatePicker.kt:372-404 | corrected: the current page has 37 cells, showing every day of the viewed month once, in order |
| Picker.DatePickerDialog.YearItems | date-picker/src/main/java/com/andlill/datepicker/DatePicker.kt:308-339 | the year grid has one item per year, and the selected year is highlighted at its index |
| Picker.DatePickerDialog.ToggleEditMode | date-picker/src/main/java/com/andlill/datepicker/DatePicker.kt:93-136 | corrected: entering the text field seeds it with the formatted selection and commits it when accepted. Leaving it shows the calendar on the selection's month. Valid() is kept |
| Picker.DatePickerDialog.ToggleYearPicker | date-picker/src/main/java/com/andlill/datepicker/DatePicker.kt:216-218 | switches between the calendar and the year grid, changing nothing else |
| Picker.DatePickerDialog.Previous | date-picker/src/main/java/com/andlill/datepicker/DatePicker.kt:204-209 | the page becomes PreviousPage of the old page, and stays in the pager |
| Picker.DatePickerDialog.Next | date-picker/src/main/java/com/andlill/datepicker/DatePicker.kt:210-215 | the page becomes NextPage of the old page (the corrected guard), and stays in the pager |
| Picker.DatePickerDialog.Swipe | date-picker/src/main/java/com/andlill/datepicker/DatePicker.kt:372 | a swipe to a page of the pager shows that page |
| Picker.DatePickerDialog.SelectDay | date-picker/src/main/java/com/andlill/datepicker/DatePicker.kt:399-401 | a tap selects the viewed month's date shown in that cell; afterwards that cell, and no other, is marked selected |
| Picker.DatePickerDialog.SelectYear | date-picker/src/main/java/com/andlill/datepicker/DatePicker.kt:226-231 | closes the year grid and shows the chosen year's page of the selected month; the selection is unchanged |
| Picker.DatePickerDialog.EditText | date-picker/src/main/java/com/andlill/datepicker/DatePicker.kt:428-447 | corrected: the error flag is up exactly when the new text is not accepted; an accepted text becomes the selection, otherwise the selection is kept |
| Picker.DatePickerDialog.Confirm | date-picker/src/main/java/com/andlill/datepicker/DatePicker.kt:152-157 | OK passes the selection to onSelectDate exactly once, then closes the dialog |
| Picker.ConfirmAndCancel | date-picker/src/main/java/com/andlill/datepicker/DatePicker.kt:142-157 | June 2023, Monday first: a tap on cell 22 then OK hands exactly 2023-06-20 to onSelectDate; the same tap then Cancel hands over nothing |
| Picker.DatePickerDialog.Cancel | date-picker/src/main/java/com/andlill/datepicker/DatePicker.kt:142-150 | Cancel (and dismissal, line 72) closes the dialog without calling onSelectDate |

## Left out

- Rendering is not modelled: colors, sizes, fonts, icons, the dividers, `animateContentSize`, and the screen-height-dependent sizes.
- Picker.DatePickerDialog.constructor: requires a non-empty year range and an `initialDate` whose year is in it. The source takes any `initialDate`. For one before the range, the initial page is negative, and `LocalDate.of` throws for February to December (Paging.ViewedMonthBeforeRange). For one after the range, the initial page is at or past pageCount (Paging.InitialPageAfterRange). What the pager library does with such a page is not part of this model.
- Picker.DatePickerDialog.ToggleEditMode: in the date-picker dialog, the title and edit icon are shown only when the screen is at least 560 dp high (DatePicker.kt:82). The model offers the toggle at every screen size, as the date-time-picker dialog does.
- The title (`EEE, MMM d`) and the year-button text (`MMMM yyyy`) need month and weekday names from the locale, so they are not modelled. Neither are the header's narrow weekday names; only which weekday each column shows is modelled.
- DateText.Format: only the default text-field pattern `yyyy-MM-dd` is modelled. A caller-supplied pattern is not.
- The locale enters only through `WeekFields.of(locale).firstDayOfWeek`, which is the `firstDayOfWeek` parameter.
- `LocalDate.now()` is the `today` parameter. `initialDate` is the constructor's argument.
- `animateScrollToPage` and `scrollToPage` run in coroutines; the model treats them as an immediate page change. The pager library's own treatment of a target outside [0, pageCount) is not part of this model.
- Paging.PageCount: Kotlin's 32-bit `Int` arithmetic is not modelled; it overflows only for year ranges of more than about 178 million years.
- LocalDate's year limits (plus or minus 999,999,999) bound only the parser here. Calendar dates are otherwise unbounded.
- The text field's focus request, cursor position and recomposition scheduling are not modelled. `LaunchedEffect(parsedDate)` is taken to commit each new parse at once; re-committing an unchanged parse changes nothing.
- `toTimeString`, the time picker, `DatePickerDefaults`, `DialogProperties` and the sample `MainActivity` files are outside the date engine.

## Findings

| source | as written | input that shows it | evidently intended | confidence | as-written member | corrected member |
|---|---|---|---|---|---|---|
| date-time-picker/src/main/java/com/andlill/datetimepicker/TimeUtils.kt:24-30 | The offset is the ISO weekday of day 1, minus 1 only for Monday-first locales. Any other locale gets a Sunday-aligned grid, with 7 blanks when day 1 is a Sunday. | Sunday-first, January 2023: offset 7, so day 31 would need cell 37 of 37 and is not shown. Saturday-first, June 2023: the 1st, a Thursday, sits under the Wednesday label. | offset = (weekday of day 1 - first day of week) mod 7, which lines the days up with the header labels and always fits 37 cells | not executed | Calendar.DatePickerMonthInfo (lemmas Calendar.January2023, Grid.SundayFirstAsWrittenDropsLastDay, Grid.SaturdayFirstAsWrittenMisaligned) | Calendar.AlignedMonthInfo (lemmas Grid.ColumnsMatchHeader, Grid.PageGrid) |
| date-picker/src/main/java/com/andlill/datepicker/DatePicker.kt:210-215 | The next guard is `currentPage <= pageCount`. | On the last page (pageCount - 1), next targets page pageCount, and from there pageCount + 1. Neither is a page of the pager. | advance only while currentPage + 1 < pageCount, mirroring the previous button's guard | not executed | Paging.NextPageAsWritten (lemma Paging.NextAsWrittenLeavesPager) | Paging.NextPage (used by Picker.DatePickerDialog.Next) |
| date-picker/src/main/java/com/andlill/datepicker/DatePicker.kt:428-447 | Every date that parses is committed, whatever its year. | With yearRange 1900..2100, typing "1899-12-01" and returning to the calendar gives initial page -1 | treat a date outside yearRange as a validation error and do not commit it, so the calendar always has a page for the selection | not executed | Picker.CommitAsWritten (lemma Picker.CommitAsWrittenLeavesRange) | Picker.Commit with Picker.AcceptedDate (used by Picker.DatePickerDialog.EditText and ToggleEditMode) |
