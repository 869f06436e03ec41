# AutoPDF core, modelled in Dafny

AutoPDF is a small Streamlit application (`app.py`) with two pieces of logic
around its PDF and UI plumbing. Both are modelled here.

- **The schedule grid of `generate_schedule`.** For a year, a month and a
  list of holiday day numbers, it lists the days of the month with their
  weekdays. These come from Python's `calendar.Calendar().itermonthdays2`,
  with the padding days (day 0) dropped. It then builds a table:
  - a fixed six-column header;
  - one row per day, filled with the clock times `08:00`, `14:00`, `15:00`,
    `18:00` and 8 hours exactly when the day falls Monday to Friday and is
    not a holiday, and five empty cells otherwise;
  - a closing `TOTAL` row with 8 hours per workday.
- **The page-naming rule of `split_pdf_by_worker`.** Every page of the
  uploaded document becomes one archive entry. When the page's text holds
  `Trabajador:`, the entry is named after the text that follows the marker:
  up to the next marker or line break, stripped of whitespace, with spaces
  turned into underscores. Otherwise it is named `pagina_<n>`, where n is the
  1-based page number. Either name gets `.pdf` appended.

Files:

- `wrappers.dfy`: `Option` and `Result`.
- `calendar.dfy`: the parts of Python's `calendar` and `datetime` the grid
  needs:
  - `isleap` and the month lengths;
  - `monthrange`, including its `IllegalMonthError`, which is an `Err` result
    here;
  - `weekday`, including its remapping of years outside 1..9999 to
    `2000 + year % 400`;
  - `itermonthdays` and `itermonthdays2` with their padding, and the
    `day != 0` filter.
- `decimal.dfy`: `str()` on integers, with a reading-back function as its
  partner.
- `pystr.dfy`: the string operations of the naming rule, each as Python
  defines it: `in`, `find`, `split` (partner: `join`), `strip` (with Python's
  `isspace` character set) and one-character `replace`.
- `schedule.dfy`: the grid.
  - `ScheduleTable` is the loop of `generate_schedule` as a method, with
    invariants over the rows so far and the running `total_hours`.
  - `GenerateSchedule` feeds it the filtered month and states the whole
    table in calendar terms.
- `worker_split.dfy`: the naming rule.
  - `WorkerLabel(text, pageIndex)` and `OutputFileName` are the rule.
  - `SplitPages` is the page loop as a method, given the text of each page.
  - `SplitByWorker` runs that loop with this rule.

The fallback name is `pagina_<n>` (app.py:58).

## Model

| member | source | states |
|---|---|---|
| Calendar.DaysInMonth | app.py:70-71 | A month has 28 to 31 days; February has 29 in leap years and 28 otherwise; other months take their fixed length. |
| Calendar.WeekdayYear | app.py:70-71 | The year handed to the date arithmetic is always in 1..9999. A year already in that range is kept, and every year keeps its remainder modulo 400, i.e. its place in the 400-year cycle. |
| Calendar.Weekday | app.py:70-71 | `calendar.weekday` always yields 0 (Monday) to 6 (Sunday). |
| Calendar.MonthRange | app.py:70-71 | `monthrange` fails with `IllegalMonth(month)` exactly when the month is outside 1..12. Otherwise it gives `calendar.weekday` of the 1st (0..6) and the month's length. `itermonthdays` and `GenerateSchedule` take both from it. |
| Calendar.LeapYearPeriodic | app.py:70-71 | The leap-year rule (`IsLeapYear`, `calendar.isleap`) repeats every 400 years. |
| Calendar.DaysBeforeYearPeriodic | app.py:70-71 | 400 years add exactly 146097 days (a whole number of weeks) to the day count before a year. |
| Calendar.WeekdayIsProleptic | app.py:70-71 | For every year, including the remapped ones, `calendar.weekday` is the weekday of the proleptic Gregorian ordinal of the date itself. |
| Calendar.DaysBeforeNextMonth | app.py:70-71 | The days before month m+1 are the days before month m plus the length of month m. |
| Calendar.DaysBeforeNextYear | app.py:70-71 | The days before year y+1 are the days before year y plus 365, or 366 in a leap year. |
| Calendar.WeekdayNextDay | app.py:70-71 | Within a month, each day's weekday is the previous day's plus one, modulo 7. |
| Calendar.WeekdayNextMonth | app.py:70-71 | The 1st of a month falls the weekday after the last day of the previous month. |
| Calendar.WeekdayNextYear | app.py:70-71 | 1 January falls the weekday after 31 December of the previous year, for every year. |
| Calendar.WeekdayOffset | app.py:70-71 | Day d of a month falls d-1 weekdays after the 1st, modulo 7. |
| Calendar.NewYear2025IsWednesday | app.py:180-184 | 1 January 2025, the month the application fills in, is a Wednesday (2). |
| Calendar.NonPadding | app.py:71 | The `day != 0` filter never makes the list longer. |
| Calendar.NonPaddingKeeps | app.py:71 | The filter keeps exactly the entries whose day is not 0. |
| Calendar.IterMonthDays2Shape | app.py:71 | `itermonthdays2` (model `IterMonthDays2`, over `IterMonthDays`) is padding, then days 1..N paired with their position in the week, then padding again. |
| Calendar.NonPaddingMiddle | app.py:71 | Filtering out zero days from a list that is zero days, then non-zero days, then zero days leaves exactly the middle block. |
| Calendar.NonPaddingOfMonth | app.py:71 | The filtered `itermonthdays2` of a month is exactly its block of real days. |
| Calendar.DaysWithWeekdaySpec | app.py:70-71 | The `weekdays` list (model `DaysWithWeekday`) has one entry per day of the month, in order 1..N. Entry k is (k+1, `calendar.weekday` of day k+1). |
| Decimal.NatToString | app.py:93 | `str(n)` of a natural number is a non-empty string of digits without a leading zero. |
| Decimal.IntToString | app.py:93 | `str(i)` is all digits exactly when i is non-negative, and then it is the decimal form `NatToString(i)`. A negative number gets a minus sign before the digits of its magnitude. |
| Decimal.NatToStringRoundTrip | app.py:93 | Reading back the digits that `str(n)` writes gives n. |
| Decimal.NatToStringInjective | app.py:58 | Different page numbers are written as different strings. |
| PyString.Find | app.py:56 | `find` returns the lowest index where the pattern occurs, or none when it occurs nowhere. |
| PyString.FindIffContains | app.py:55-56 | `find` finds something exactly when `pat in s` (model `Contains`) holds. |
| PyString.Split | app.py:56 | `split` yields at least one piece, and at least two exactly when the separator occurs. |
| PyString.SplitFirstPiece | app.py:56 | The first piece of a split is a prefix of the string. |
| PyString.SplitPiecesAvoid | app.py:56 | No piece of a split contains the separator. |
| PyString.SplitJoinRoundTrip | app.py:56 | Joining the pieces of a split with the separator gives back the original string. |
| PyString.StripStartSpaces | app.py:56 | The forward scan of `strip` passes only whitespace and stops at a non-whitespace character or the end. |
| PyString.StripEndSpaces | app.py:56 | The backward scan of `strip` passes only whitespace and stops after a non-whitespace character or at its lower bound. |
| PyString.Strip | app.py:56 | `strip` never lengthens a string. |
| PyString.StripSpec | app.py:56 | The stripped string sits inside the original with only whitespace around it, and neither starts nor ends with whitespace. |
| PyString.StripIdempotent | app.py:56 | Stripping twice gives the same as stripping once. |
| PyString.ReplaceChar | app.py:56 | `replace(" ", "_")` keeps the length and changes exactly the matching characters. |
| PyString.ReplaceCreatesNoPattern | app.py:56 | Replacing characters by one the pattern does not contain cannot create an occurrence of the pattern. |
| Schedule.DayRowCells | app.py:79-93 | A day row (model `DayRow`, with the test `IsWorkday`: Monday to Friday and not a holiday) has six cells and starts with `str(day)`. The rest is `08:00, 14:00, 15:00, 18:00, 8` exactly on workdays, and five empty strings exactly on the other days. |
| Schedule.TotalRowCells | app.py:95 | The `TOTAL` row (model `TotalRow`) has six cells: the label, four empty cells, and the total as digits that read back as the total. |
| Schedule.FiveWorkdaysPerWeek | app.py:79 | Without holidays, any seven consecutive days hold exactly five workdays. |
| Schedule.WorkdaysUpTo | app.py:78-85 | The days 1..k of a month hold at most k workdays. |
| Schedule.CountWorkdays | app.py:78-85 | A list of (day, weekday) pairs holds at most as many workdays as pairs. |
| Schedule.ScheduleTable | app.py:73-95 | The loop over the (day, weekday) pairs gives the header, then one row per pair in order, then `TOTAL` with 8 times the number of workday pairs. |
| Schedule.CountWorkdaysOfMonth | app.py:71-85 | Counting workdays over the first k filtered entries equals counting days 1..k of the month by their weekday. |
| Schedule.GenerateSchedule | app.py:69-95 | A month outside 1..12 is the `IllegalMonth` error of `monthrange`. Otherwise the table has N+2 rows (N the month's length, leap years included): the header, the row of each day 1..N in order, and `TOTAL` with 8 times the month's workdays. |
| Schedule.TotalAtMostFullMonth | app.py:77-95 | The total never exceeds 8 hours times the number of days in the month. |
| Schedule.MoreHolidaysUpTo | app.py:79 | With a superset of holidays, the days 1..k hold no more workdays. |
| Schedule.MoreHolidaysNeverRaiseTotal | app.py:79 | Declaring a superset of holidays never raises the month's workday count. |
| Schedule.AddedHolidayNeverRaisesTotal | app.py:79 | Adding one day to the holidays never raises the month's workday count. |
| Schedule.IrrelevantHolidayUpTo | app.py:79 | A holiday number outside 1..N does not change the workdays among days 1..k. |
| Schedule.IrrelevantHolidayChangesNothing | app.py:79 | A holiday number outside 1..N changes neither any day row nor the total. |
| Schedule.TotalIsHoursColumnSum | app.py:84-95 | The total equals the sum of the hours column of the day rows, with empty cells counting 0. |
| Schedule.January2025Weekdays | app.py:180-184 | In January 2025, day d falls on weekday (d+1) mod 7. |
| Schedule.January2025Rows | app.py:180-184 | With holidays 1 and 6, Wednesday the 1st and Monday the 6th are holidays, Saturday the 4th is a weekend day (all three rows empty), and Thursday the 2nd is filled. |
| Schedule.January2025Total | app.py:180-184 | The January 2025 table closes with `TOTAL` and `168`. |
| Schedule.TotalRow168 | app.py:95 | A total of 168 hours is written as `"168"`. |
| Schedule.WorkdaysUpToFromFirst | app.py:70-79 | A month's workday count depends only on the weekday of its 1st and the holidays. |
| Schedule.January2025Count | app.py:180-184 | January 2025 with holidays 1 and 6 has 21 workdays. |
| Schedule.CountFromWednesdayFirstHalf | app.py:79-85 | In a month starting on a Wednesday with holidays 1 and 6, days 1..16 hold 10 workdays. |
| Schedule.CountFromWednesdaySecondHalf | app.py:79-85 | Continuing from there, days 1..31 hold 21 workdays. |
| WorkerSplit.WorkerLabelClean | app.py:55-58 | Of the label rule (model `WorkerLabel`): with the marker present, the label has no space, no line break, no marker and no whitespace at either end. Without it, the label is `pagina_` plus the page number. |
| WorkerSplit.MarkerLabelFacts | app.py:56 | Each step of the marker branch keeps out what the earlier steps removed: first the marker, then the line break, then edge whitespace, then spaces. |
| WorkerSplit.FallbackLabelNumbersPage | app.py:57-58 | The fallback label (model `FallbackLabel`) is `pagina_` followed by digits that read back as the 1-based page number. |
| WorkerSplit.OutputFileName | app.py:60 | Every file name ends in `.pdf`. |
| WorkerSplit.FileNameStem | app.py:60 | Taking `.pdf` off a file name gives back the page's label. |
| WorkerSplit.SplitPages | app.py:49-64 | The page loop writes one entry per page index 0..num_pages-1, in order, each named by the rule from its own text and index, and returns the page count. |
| WorkerSplit.SplitByWorker | app.py:49-60 | With the application's rule, page i is written as `OutputFileName(text_i, i)`, and there is one entry per page. |
| WorkerSplit.FallbackNamesDistinct | app.py:57-60 | Two different pages without a marker never get the same file name. |
| WorkerSplit.FieldAfterLeadingMarker | app.py:56 | For a text that opens with the marker and holds no other, the field after the marker is the rest of the text. |
| WorkerSplit.FirstLine | app.py:56 | `split("\n")[0]` of a text is its first line. |
| WorkerSplit.LabelOfLeadingMarkerLine | app.py:55-56 | A page that opens with the marker and a name on the same line is labelled with that name, stripped, spaces made underscores. |
| WorkerSplit.SecondPageFallbackName | app.py:57-60 | The second page (index 1) without a marker is written as `pagina_2.pdf`. |
| WorkerSplit.NamedPageExample | app.py:55-60 | A page opening with `Trabajador: Ana Ruiz` on its own line is written as `Ana_Ruiz.pdf`, whatever its position. |
| WorkerSplit.NamedPage | app.py:55-60 | The same example with the strings passed as parameters. |
| WorkerSplit.SanitizedAnaRuiz | app.py:56 | `" Ana Ruiz".strip().replace(" ", "_")` is `Ana_Ruiz`. |

## Left out

- The Streamlit interface (tabs, uploaders, download buttons, the logo fallback) is not modelled. It is user-interface plumbing.
- Reading and writing PDFs is not modelled. This covers PyPDF2's reader and writer, `pdfplumber`'s `extract_text`, the zip archive and the in-memory buffers. They are foreign library calls.
  - Each page's text is a parameter.
  - An archive entry holds the page index instead of the page's bytes.
- The archive takes every entry, and two pages with the same worker label produce two entries with one name. The model keeps both entries in order and does not model what an unzip tool does with the duplicate.
- `extract_text` can return `None` for a page without text, and `"Trabajador:" in None` then raises. The model takes every page text as a string.
- Python requires the separator of `split` to be non-empty. The model's `Split` carries this as a precondition, which the constant separators of app.py:56 meet.
- `replace` is modelled for one-character arguments only, which is all app.py:56 uses.
- The reportlab `Table` and `TableStyle` (app.py:97-114) and `overlay_table_on_pdf` (app.py:117-141) are not modelled. They are layout through library calls with floating-point positions.
- The fixed temporary file paths and their deletion are not modelled. They are file-system I/O.
- The hours credited to a workday stay the constant 8 of app.py:84, although the clock times span 9 hours.
- The holidays are day numbers (`seq<int>`). Python's `in` on a list of other kinds of value is not modelled.
- The calendar model follows the Python 3 `calendar` module, whose `itermonthdays` pads with zeros around `monthrange` and does not build a `datetime.date` per day, unlike `itermonthdates`. Only the week starting on Monday, the default of `calendar.Calendar()`, is modelled.
