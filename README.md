# Sunrise/sunset month calendar: the date and time arithmetic

This project models the core of a program that prints a monthly calendar
for one fixed location (Oklahoma City in the source). Each day's box shows
the sunrise, the sunset, the solar noon, the day length and the night
length. The model covers the date and time arithmetic inside
`generate_pdf`:

- **Calendar grid builder** (`Gregorian`, `CalendarGrid`). This covers the
  month length by the Gregorian leap-year rule and the weekday of the 1st
  on Python's proleptic day count (0001-01-01 is day 1, a Monday). It also
  covers `start_day` (0 = Sunday), the row count `total_rows`, and the day
  number `row*7 + col - start_day + 1` of every cell.
- **Per-day record** (`SunTimes`). Solar noon is the midpoint of sunrise
  and sunset in absolute time. Each time is read on the local clock in
  `%I:%M %p` form, except that a solar noon at local hour 0 has its "AM"
  replaced by "PM". Day length is sunset minus sunrise. Night length is
  one day minus the day length. Each length is split into zero-padded
  `HH:MM:SS` from its `timedelta.seconds`. A failed lookup turns that day's
  box into the day number and an error line.
- **Grid assembly** (`CalendarGrid.FillGrid`, `CalendarGrid.BuildGrid`).
  This is the nested row/column loop that fills every cell of an array in
  drawing order. The loop and the grid lemmas are stated for any valid
  grid shape and any record per date. `CalendarGrid.DayRecords` supplies
  the record the program computes for each date.
  `CalendarGrid.Generate` adds the one failure that stops a whole page:
  `datetime(year, month, 1)` refusing the year or the month.

Instants are whole seconds since the epoch (UTC). The astronomical library
is an input: a `SunSource` gives a sunrise lookup and a sunset lookup per
date, each either an instant or a failure message. The time-zone database
is also an input: `utcOffset(t)` is the display zone's offset from UTC in
force at instant `t`.

Points where the model follows the code rather than the prose description
of the program:

- The night length is `timedelta(days=1) - day_length`, and both lengths
  are shown from their `.seconds`. That field is the duration reduced
  modulo one day. So the two readings add up to 24 hours only when the day
  length is not a whole number of days. Otherwise both read `00:00:00`
  (`SunTimes.DayNightComplement`). A negative day length is reduced too.
  It is not rejected.
- `sunset_cst - sunrise_cst` subtracts two datetimes that carry the same
  zone object. Python then subtracts the wall-clock readings, so the day
  length is the elapsed time only when the UTC offset is the same at
  sunrise and at sunset (`SunTimes.DayLength`).
- The solar-noon label at local hour 0 has its "AM" replaced by "PM".
  That is the label a midpoint half a day early gets when the library
  reports the sunset one day early, but only when the true midpoint is in
  the 12 o'clock hour. A true midpoint of 13:40 is still shown as
  `01:40 AM` (`SunTimes.HalfDayEarlyNoonLabel`). The model keeps the rule
  as written.
- A bad month or year is not checked by the program itself.
  `datetime(year, month, 1)` raises, and generation stops.

Python's `//` and `%` with a positive divisor round toward negative
infinity. That agrees with Dafny's `/` and `%` for a positive divisor, so
the model uses them directly, negative operands included.

## Model

| member | source | states |
|---|---|---|
| `Gregorian.MonthLengthRule` | Sunrise_Sunset_pdf_output_month_year.py:30-38 | On the day count, February has 29 days exactly when `(y%4==0 and y%100!=0) or y%400==0`, otherwise 28. April, June, September and November have 30, the rest 31, and every month has 28..31 days. |
| `Gregorian.IsLeap` | Sunrise_Sunset_pdf_output_month_year.py:31 | The leap-year test of the February branch. `MonthLengthRule` shows that it decides exactly when February has 29 days on the day count. |
| `Gregorian.EndDay` | Sunrise_Sunset_pdf_output_month_year.py:27-38 | The if/elif chain that sets `end_date` picks exactly the month's length on the day count, a value in 28..31. |
| `Gregorian.YearLength` | Sunrise_Sunset_pdf_output_month_year.py:57 | The day count gives a leap year 366 days and any other year 365, so date differences across December run correctly. |
| `Gregorian.Weekday` | Sunrise_Sunset_pdf_output_month_year.py:56 | `weekday()` is the number of days since 0001-01-01 (a Monday), modulo 7, in 0..6. |
| `Gregorian.FirstDayMonday` | Sunrise_Sunset_pdf_output_month_year.py:56 | For the date 0001-01-01, the day count is 1 and `weekday()` is 0, a Monday. |
| `Gregorian.NextMonth` | Sunrise_Sunset_pdf_output_month_year.py:57 | The month after (y, m) is the next month in sequence, with December going into January of the next year. |
| `Gregorian.FirstOfNextMonth` | Sunrise_Sunset_pdf_output_month_year.py:56-57 | The 1st of the next month falls one month's length of weekdays after this month's 1st, across year ends too. |
| `CalendarGrid.StartDay` | Sunrise_Sunset_pdf_output_month_year.py:56 | `start_day` is in 0..6. It is 0 exactly when the 1st is a Sunday, and it equals the day count modulo 7. |
| `CalendarGrid.SundayFirst` | Sunrise_Sunset_pdf_output_month_year.py:56 | Adding one to a Monday-first weekday, modulo 7, gives the day count modulo 7. The result is 0 exactly for Sunday (weekday 6). |
| `CalendarGrid.TotalRows` | Sunrise_Sunset_pdf_output_month_year.py:72 | `total_rows` is the least r with `7*r >= start_day + days`. For a real month it is between 4 and 6. |
| `CalendarGrid.DayNum` | Sunrise_Sunset_pdf_output_month_year.py:76 | `day_num` of the cell at (row, col). `FillGrid`'s loop invariant and `Layout` show that the cell at row-major index i holds day `i - start_day + 1` exactly when that day is in the month. |
| `CalendarGrid.CellAt` | Sunrise_Sunset_pdf_output_month_year.py:76-79 | The cell at a row-major index: the day with that date's record when `1 <= day_num <= days_in_month`, empty otherwise. `Layout` and `DayPlacement` state its meaning. |
| `CalendarGrid.DayRecords` | Sunrise_Sunset_pdf_output_month_year.py:80-119 | The record of every date, computed by the guarded block from that date's two lookups. `RecordOf` states its success and failure cases, and `OnlyOwnDate` shows that a date's lookups reach no other cell. |
| `CalendarGrid.ShapeOf` | Sunrise_Sunset_pdf_output_month_year.py:56-72 | The shape of a month is valid: its column of the 1st is `start_day`, its length is the month length on the day count (28..31 days), and its row count is `total_rows`, which is 4..6. |
| `CalendarGrid.MonthShape` | Sunrise_Sunset_pdf_output_month_year.py:26-72 | Computing the last day by the chain of cases, the length as the day-count distance from the 1st to that day plus one, the column of the 1st and the row count gives exactly the month's shape. |
| `CalendarGrid.GridCells` | Sunrise_Sunset_pdf_output_month_year.py:73-78 | A grid has 7 cells for each of its rows. They hold the leading blanks and every day, with fewer than 7 cells to spare. |
| `CalendarGrid.Layout` | Sunrise_Sunset_pdf_output_month_year.py:76-78 | In a grid of any valid shape, including the month's own shape, a cell is empty exactly when its index is before `start_day` or after the last day. A day cell at index i holds day `i - start_day + 1`, so day numbers rise by one per step. |
| `CalendarGrid.DayPlacement` | Sunrise_Sunset_pdf_output_month_year.py:76-83 | In a grid of any valid shape, every day d of the month is in exactly one cell, at index `start_day + d - 1`. That cell holds the record of that date. |
| `CalendarGrid.DayCount` | Sunrise_Sunset_pdf_output_month_year.py:73-78 | In a grid of any valid shape, the number of non-empty cells equals the number of days in the month. |
| `CalendarGrid.CountRun` | Sunrise_Sunset_pdf_output_month_year.py:78 | Suppose the day cells of a row-major sequence are exactly those in lo..hi-1. Then a prefix of length k contains `min(max(k-lo,0), hi-lo)` of them. |
| `CalendarGrid.CountDays` | Sunrise_Sunset_pdf_output_month_year.py:78 | The count of day cells, taken from the front of the sequence, equals the number of positions that hold a day cell, and is at most the length. |
| `CalendarGrid.OnlyOwnDate` | Sunrise_Sunset_pdf_output_month_year.py:78-122 | A lookup for one date affects only that date's cell. Two sources that agree on every other date give grids that agree on every other cell. |
| `CalendarGrid.FailedLookupText` | Sunrise_Sunset_pdf_output_month_year.py:118-119 | If a lookup fails for day d, that cell reads the day number, a newline and `Error: ` with the message. The sunrise's message is used when the sunrise failed, the sunset's otherwise. |
| `CalendarGrid.KnownTimesText` | Sunrise_Sunset_pdf_output_month_year.py:82-116 | If both lookups for day d succeed, that cell reads the day number and then five lines: `Sunrise:` and `Sunset:` with the 12-hour local times, `Solar Noon:` with the label of the absolute midpoint, and `Day:` and `Night:` with the `HH:MM:SS` lengths. |
| `CalendarGrid.CellText` | Sunrise_Sunset_pdf_output_month_year.py:110-122 | A cell's text is empty exactly when the cell is empty. A day's text begins with its day number on a line of its own. |
| `CalendarGrid.PageTexts` | Sunrise_Sunset_pdf_output_month_year.py:73-127 | The texts drawn for the month, cell by cell in drawing order. `Generate` returns exactly these for a valid month, and `FailedLookupText` and `KnownTimesText` give each day's text. |
| `CalendarGrid.FillGrid` | Sunrise_Sunset_pdf_output_month_year.py:73-83 | For a grid of any valid shape, the nested row/column loop fills a fresh array whose contents are exactly that grid's cells in row-major order: a day cell with that date's record when `1 <= day_num <= days_in_month`, an empty cell otherwise. |
| `CalendarGrid.BuildGrid` | Sunrise_Sunset_pdf_output_month_year.py:26-83 | The month's shape followed by the drawing loop gives a fresh array holding exactly the month's cells in row-major order. |
| `CalendarGrid.Generate` | Sunrise_Sunset_pdf_output_month_year.py:24-127 | A year outside 1..9999 or a month outside 1..12 stops generation with that error, the year checked first. Otherwise the page holds every cell's text in drawing order. |
| `CalendarGrid.Examples` | Sunrise_Sunset_pdf_output_month_year.py:26-72 | Worked cases: February 2024 and 2000 have 29 days, February 2023 and 1900 have 28. April 2025 has 30 days, starts on a Tuesday (`start_day` 2) and needs 5 rows. |
| `SunTimes.SolarNoon` | Sunrise_Sunset_pdf_output_month_year.py:84 | Solar noon lies between sunrise and sunset whenever sunrise <= sunset. Its distances to the two differ by at most one second. |
| `SunTimes.NoonMinuteExact` | Sunrise_Sunset_pdf_output_month_year.py:84 | Flooring the midpoint to a whole second shows the same minute as the exact half-second midpoint, whatever the offset. |
| `SunTimes.SecondOfDay` | Sunrise_Sunset_pdf_output_month_year.py:87-89 | The local time of day is in 0..86399 and agrees with the local wall-clock reading modulo one day. |
| `SunTimes.LocalSeconds` | Sunrise_Sunset_pdf_output_month_year.py:87-89 | The local wall-clock reading of an instant, as given by `astimezone`. `SecondOfDay` reduces it to the time of day, and `DayLength` shows that differences of readings are elapsed time when the offsets agree. |
| `SunTimes.LocalHour` | Sunrise_Sunset_pdf_output_month_year.py:93 | The local `.hour` is in 0..23. |
| `SunTimes.ClockOf` | Sunrise_Sunset_pdf_output_month_year.py:92 | The `%I`/`%M`/`%p` reading has its hour in 1..12 and its minute in 0..59. Read back as a 24-hour time it gives the hour and minute of the time of day. |
| `SunTimes.ClockText` | Sunrise_Sunset_pdf_output_month_year.py:92 | The 12-hour text is `HH:MM AM` or `HH:MM PM`. Its first two digits read back as the 12-hour hour (1..12), the two after the colon as the minute, and it ends in "PM" exactly for PM readings. |
| `SunTimes.Format12` | Sunrise_Sunset_pdf_output_month_year.py:92 | `strftime('%I:%M %p')` of an instant on the local clock, also used for sunrise and sunset at lines 112-113. `ClockOf` and `ClockText` state its hour, minute and AM/PM. |
| `SunTimes.NoonText` | Sunrise_Sunset_pdf_output_month_year.py:92-94 | At local hour 0 the solar-noon label reads `12:MM PM`. At every other hour it is the plain 12-hour text. |
| `SunTimes.ClockHalfShift` | Sunrise_Sunset_pdf_output_month_year.py:92-94 | Moving a time of day by twelve hours, as a midpoint half a day off does, keeps its 12-hour hour and its minute and flips AM/PM. Hour 0 is reached exactly from hour 12. |
| `SunTimes.SecondOfDayHalfShift` | Sunrise_Sunset_pdf_output_month_year.py:84-89 | Half a day earlier, as for the midpoint of a sunset reported a day early, and with the UTC offset unchanged, the local time of day moves by twelve hours within the day. |
| `SunTimes.HalfDayEarlyNoonLabel` | Sunrise_Sunset_pdf_output_month_year.py:84-94 | When the sunset is reported a day early, the midpoint falls half a day early. Labelled by the hour-0 rule, it reads the same as the true midpoint if and only if the true midpoint is in the local 12 o'clock hour. In every other hour the AM/PM half is wrong. |
| `SunTimes.EarlySunset` | Sunrise_Sunset_pdf_output_month_year.py:84-108 | Suppose the library reports a sunset one day early. Then solar noon moves back by exactly half a day, and the day-length and night-length readings stay the same. |
| `SunTimes.WithinDay` | Sunrise_Sunset_pdf_output_month_year.py:101-108 | `timedelta.seconds` is in 0..86399 and differs from the duration by whole days, also for negative durations. |
| `SunTimes.Split` | Sunrise_Sunset_pdf_output_month_year.py:101-103 | The hours, minutes and seconds satisfy `h*3600 + m*60 + s == secs`, with h < 24, m < 60 and s < 60. |
| `SunTimes.SplitUnique` | Sunrise_Sunset_pdf_output_month_year.py:106-108 | The split is the only in-range triple with its total: splitting `h*3600 + m*60 + s` gives back (h, m, s). |
| `SunTimes.HmsRoundTrip` | Sunrise_Sunset_pdf_output_month_year.py:115-116 | The zero-padded `HH:MM:SS` text of a within-day count has that shape and reads back as the same count. |
| `SunTimes.HmsText` | Sunrise_Sunset_pdf_output_month_year.py:115-116 | The zero-padded `HH:MM:SS` text of the day and night lengths. `HmsRoundTrip` shows it has that shape and reads back as the count. |
| `SunTimes.DayLength` | Sunrise_Sunset_pdf_output_month_year.py:97 | The wall-clock difference equals sunset minus sunrise whenever both instants have the same UTC offset. |
| `SunTimes.DayNightComplement` | Sunrise_Sunset_pdf_output_month_year.py:97-108 | The day and night `.seconds` are zero together. When they are not zero they add up to exactly 86400. |
| `SunTimes.LengthReadings` | Sunrise_Sunset_pdf_output_month_year.py:101-116 | The `HH:MM:SS` day and night texts are well formed. The day text reads back as the within-day day length, and the two add up to 24 hours unless both are zero. |
| `SunTimes.TimesOf` | Sunrise_Sunset_pdf_output_month_year.py:82-116 | A day with both instants gets all five lines. Sunrise and sunset are their `%I:%M %p` local times. The solar-noon line is the hour-0 label of the midpoint taken in absolute time. The day and night texts are `HH:MM:SS`, the day text reads back as the within-day day length, and their seconds add up to 24 hours or are both zero. |
| `SunTimes.RecordOf` | Sunrise_Sunset_pdf_output_month_year.py:80-119 | The record is unavailable exactly when a lookup failed. It carries the sunrise's message when the sunrise failed, and the sunset's when only the sunset failed. When both lookups succeed it is the full record of the two instants. |
| `Text.Decimal` | Sunrise_Sunset_pdf_output_month_year.py:111 | `str(day)` is a non-empty string of digits with no leading zero that reads back as the number. |
| `Text.Pad2` | Sunrise_Sunset_pdf_output_month_year.py:115-116 | `{n:02}` of n < 100 is exactly two digits that read back as n. |
| `Text.ReplaceAtEnd` | Sunrise_Sunset_pdf_output_month_year.py:94 | `str.replace` on `p + pat` changes only the final occurrence when the pattern's first character is absent from p. |
| `Text.Replace` | Sunrise_Sunset_pdf_output_month_year.py:94 | `str.replace`: every non-overlapping occurrence, scanning from the left. `ReplaceAtEnd` and `NoonText` state what it does to the 12-hour text. |

## Left out

- The tkinter form (month and year drop-downs, the current-month defaults, the button, `mainloop`) and the success message box: user interface only.
- The FPDF document: page setup, fonts, title and header cells, `rect` and `multi_cell` drawing, and writing the file. The model ends at the text of each cell, in drawing order.
- Locale: `%p` is taken to print "AM" and "PM", as in the C locale that Python uses unless the program sets another. The `.replace("AM", "PM")` of the noon label relies on the same text. Other locales are not modelled.
- Month names from `strftime('%B')` in the title and the file name: locale formatting with no arithmetic.
- The `suntime` library (sunrise and sunset for a latitude and longitude): floating-point astronomy in a foreign library. It is an input, a lookup per date that returns an instant or a failure message. The latitude and longitude are not modelled separately.
- The `America/Chicago` zone from `dateutil`: it depends on the time-zone database and its daylight-saving rules. It is an input, a UTC offset for every instant.
- Sub-second precision: instants are whole seconds and the midpoint is rounded down. Python keeps microseconds and rounds half-microseconds to even. `SunTimes.NoonMinuteExact` shows that no displayed minute changes. The microseconds that `.seconds` drops do not exist in this model.
- `start_date + timedelta(days=day_num - 1)`: within the month, this date is written directly as `Date(year, month, day_num)`.
- Exceptions other than the library's lookup failure, for example from time-zone conversion, are not modelled. Only the lookup failure is caught per cell.
