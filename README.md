# Public holiday calendar: a Dafny model of its calendar logic

The calendar page (`app/page.tsx`) fetches the public holidays of a year and
a country, indexes them by date and draws a grid of twelve months, marking
weekends and holidays. This project models the logic of that page:

- **Dates** (`dates.dfy`): Gregorian month lengths and leap years, the host
  `new Date(year, month, day)` for a month index 0..11 and a day number from 1
  (years 0..99 read as 1900 + year; days past the month's end roll into the
  next month and year), the day count from 1 January of year 0 and the
  weekday (`getDay()`, 0 = Sunday) and weekend rule built on it.
- **Decimal text** (`decimal_text.dfy`): `Number()` of a digit string, the
  shortest decimal of a natural number, `padStart` with zeros, `split`.
- **Date keys** (`date_key.dfy`): `extractDate` ("YYYY-MM-DD" to a date) and
  `format(date, "YYYY/MM/DD")`, the key the holiday map and the grid share, with
  its inverse `ParseKey`.
- **Ordered map** (`ordered_map.dfy`): a `Map` filled by `set` calls in
  order, as the fold `SetAll`, characterised by lemmas (every key present,
  last write wins, nothing else stored, size bound).
- **Holiday index** (`holiday_index.dfy`): `fromPublicHolidaysToMap` as a loop
  of map updates, proved equal to `Index`: `SetAll` of each record under the
  key of its date.
- **Calendar grid** (`calendar_grid.dfy`): `generateCalendar` as the source's
  two nested loops, the inner one ending at the first day number that rolls
  over into the next month. The JSX is reduced to one record per day cell:
  date, weekend class, holiday flag, holiday name, whether the weekday label
  is shown.
- **Page** (`calendar_page.dfy`): what a finished request does to the error
  flag and the holiday list, as the pure function `ApplyFetch` and as the
  method of a `Page` class holding the page's state; and the choice between
  the error message and the calendar.

The code and a natural reading of the page differ on one point, and the model
follows the code. `res.ok` is tested first and holds only for statuses
200–299. So an HTTP 404 (or 500) is thrown to `.catch`, gets logged, and
never sets the error flag. Only an ok status other than 200 (201–299) shows
"Failed to fetch data". Likewise a rejected `fetch` leaves both the flag and
the list as they were.

## Model

| member | source | states |
|---|---|---|
| Dates.NewDate | app/page.tsx:66 | `new Date(year, month, day)` always yields a real calendar date |
| Dates.NewDateMonth | app/page.tsx:66-69 | the constructed date keeps the loop's month exactly when the day number is at most the month's Gregorian length, and is then that very day; a larger day number up to 31 lands in the next month |
| Dates.NextDayOfWeek | app/page.tsx:19-22 | `getDay()` advances by one (mod 7) from each day to the next, across month and year ends |
| Dates.DayOfWeek | app/page.tsx:20 | `getDay()`: a weekday number 0..6 (0 = Sunday); which one is pinned down by NextDayOfWeek and WeekdayAnchors |
| Dates.IsWeekend | app/page.tsx:19-22 | `isWeekend`: weekday 0 or 6; that these are the real Sunday and Saturday follows from NextDayOfWeek and WeekdayAnchors |
| Dates.WeekdayAnchors | app/page.tsx:19-22 | the weekday numbering is the real one: 1 Jan 1970 a Thursday (4), 1 Jan 2000 a Saturday (6), 25 Dec 2024 a Wednesday (3) |
| Dates.YearsAreContiguous | app/page.tsx:66 | the day count of 1 January grows by 366 after a leap year and by 365 after any other year |
| DateKey.Key | app/page.tsx:15-17 | `format(d, "YYYY/MM/DD")`; KeyRoundTrip shows it loses nothing and KeyInjective that it tells dates apart |
| DateKey.ExtractDate | app/page.tsx:40-43 | a digit-shaped "Y-M-D" with month 1..12 and day at least 1 always gives a real date |
| DateKey.ExtractDateExact | app/page.tsx:40-43 | a digit-shaped text naming a real day is read as exactly that day, the month minus one |
| DateKey.KeyOfDateText | app/page.tsx:40-51 | round trip: "YYYY-MM-DD" of a real day in a year from 0100 comes out of `extractDate` and `format` as "YYYY/MM/DD" with the same digits |
| DateKey.KeyRoundTrip | app/page.tsx:15-17 | every "YYYY/MM/DD" key reads back as the date it was formatted from |
| DateKey.KeyInjective | app/page.tsx:70-71 | two dates have the same key if and only if they are the same date |
| HolidayIndex.HolidayKey | app/page.tsx:50-51 | the key a record is stored under, `Key` of `extractDate` of its date; KeyOfDateText gives it as text |
| HolidayIndex.Index | app/page.tsx:45-55 | the map `fromPublicHolidaysToMap` returns, `SetAll` of the records under their keys; the OrderedMap lemmas state its promises |
| HolidayIndex.FromPublicHolidaysToMap | app/page.tsx:45-55 | the loop of `set` calls yields exactly `Index`: every record set, in list order, under the "YYYY/MM/DD" key of its date |
| OrderedMap.SetAllKeys | app/page.tsx:49-53 | after the `set` calls in order, every key that was set is present |
| OrderedMap.SetAllLastWins | app/page.tsx:49-53 | the entry under a key is the value of the last `set` call with that key |
| OrderedMap.SetAllValues | app/page.tsx:49-53 | every entry was stored by the last call with its key |
| OrderedMap.SetAllDomain | app/page.tsx:49-53 | a key is present if and only if some call set it |
| OrderedMap.SetAllSize | app/page.tsx:49-53 | the map never has more entries than there were calls |
| CalendarGrid.MonthDays | app/page.tsx:64-103 | the day loop yields the month's days 1..N in order, N the Gregorian length, each the cell of that date |
| CalendarGrid.GenerateCalendar | app/page.tsx:57-113 | exactly twelve month groups in order 0..11, each with its name and exactly its own days |
| CalendarGrid.CellFor | app/page.tsx:70-96 | the day cell: weekend class, holiday flag and name from the map lookup, weekday label on days 1..7; WeekendRule and HolidayMarking pin it down |
| CalendarGrid.NoRollover | app/page.tsx:65-69 | every cell of a month group is a real day of that group's month, numbered by its position |
| CalendarGrid.MonthLengths | app/page.tsx:65-69 | February has 29 cells in a leap year and 28 otherwise, April, June, September, November 30, the rest 31 |
| CalendarGrid.WeekendRule | app/page.tsx:78 | a cell has the weekend class exactly when its weekday is Sunday (0) or Saturday (6) |
| CalendarGrid.HolidayMarking | app/page.tsx:70-96 | a cell is a holiday exactly when some record names its date; then it shows the name of the last such record, otherwise "" |
| CalendarGrid.ChristmasDate | app/page.tsx:40-43 | "2024-12-25" is read as 25 December 2024 |
| CalendarGrid.ChristmasExample | app/page.tsx:57-113 | with the one record {"2024-12-25", "Christmas"}, December 2024 has 31 cells and only the 25th is a holiday, named "Christmas" |
| CalendarPage.ApplyFetch | app/page.tsx:115-135 | the state after a request ends; FailedRequestKeepsState, OkResponseUpdates, ErrorFlagSource, NotFoundKeepsState and ApplyFetchIdempotent pin it down |
| CalendarPage.FailedRequestKeepsState | app/page.tsx:119-121 | a rejected `fetch` or a response that is not ok leaves the error flag and the holiday list unchanged |
| CalendarPage.OkResponseUpdates | app/page.tsx:122-133 | an ok response sets the flag to "status is not 200" and replaces the list with its parsed body even when the flag is set; an unparsable body leaves the list |
| CalendarPage.ErrorFlagSource | app/page.tsx:119-126 | the flag is raised only by an ok status other than 200, or kept from before |
| CalendarPage.NotFoundKeepsState | app/page.tsx:119-121 | an HTTP 404 changes nothing |
| CalendarPage.ApplyFetchIdempotent | app/page.tsx:115-135 | receiving the same outcome twice is the same as receiving it once |
| CalendarPage.Page.constructor | app/page.tsx:25-28 | the page starts with the current year, "US", no holidays and no error |
| CalendarPage.Page.ReceiveFetch | app/page.tsx:115-135 | the state after a request ends is `ApplyFetch` of the state before; year and location are untouched |
| CalendarPage.Page.Render | app/page.tsx:198-204 | with the flag set the page shows the error message, otherwise the calendar of the current year built from the current holidays, beside the record list |

## Left out

- `app/layout.tsx`: the HTML, font and metadata shell has no logic.
- Rendering: JSX structure, CSS class strings, the tooltip markup, React keys (`getTime()`) and the layout of the flat holiday list.
- The weekday label text (`format(date, "dd")`): only whether it is shown (days 1..7) is modelled.
- Month names (`format(date, "MMMM")`): a fixed table of the twelve English names.
- The network request itself, its URL built from year and location, `res.json()` parsing and `console.log`: a request is the abstract outcome `FetchOutcome`.
- React machinery (`useState`, `useEffect`, `useCallback`) and the input handlers `handleYearChange` and `handleLocationChange`: the page state is a class with plain fields.
- Overlapping requests: whichever resolves last wins; this is concurrency, with no sequential content beyond `ReceiveFetch`.
- The current year from the clock: the constructor takes it as a parameter.
- The country-code list in `./data/data`: a static lookup table, not part of this model.
- The host `Date` constructor for month indexes outside 0..11, day numbers below 1, non-numeric input (NaN) and dates beyond its millisecond range.
- `Number()` of anything but plain digit strings (whitespace, signs, exponents, hexadecimal).
- Timezones and local midnight: dates are abstract triples.
- HolidayIndex.FromPublicHolidaysToMap: requires every record's date to be digit-shaped "Y-M-D" with month 1..12 and day at least 1; malformed dates, which the source turns into an "Invalid Date" key, are not modelled.
- CalendarPage.Page.Render: requires the same of the current holiday list, for the same reason.
- DateKey.KeyOfDateText: covers four-digit years from 0100 and two-digit months and days only; other widths are re-padded by formatting, and years 0000..0099 are read as 1900..1999.
- DateKey.KeyRoundTrip: the year text of a negative year follows dayjs's zero `padStart` of the signed decimal (-5 as "00-5"); only the injectivity of the key matters to the page.
- CalendarGrid.GenerateCalendar: the year is an integer and every year is treated as a real one. Host dates beyond the `Date` range (about 275000 years either side of 1970) are Invalid: there `getMonth()` is NaN, the day loop breaks at day 1, and the source shows twelve empty groups named "Invalid Date". A fractional year typed into the input (`Number("2024.5")`) is not covered either.
- CalendarPage.Page.ReceiveFetch: the flag and the list change in one step. In the source, `setError` runs inside `handleGetCalendar` and `setPlublicHoliday` runs only after `res.json()` resolves, so the page can render the new flag with the old list in between. That in-between state is the one `ApplyFetch` gives for the same status with an unparsable body.
