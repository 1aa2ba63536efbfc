# NAF tournament calendar feed — a Dafny model

`generate_calendar.py` reads the NAF tournament listing page and writes an iCalendar file
(RFC 5545) with one all-day event per tournament. This project models its core and proves
properties of that model. The core has two halves.

- **Extractor.** It chooses the tournament table among the page's tables: the first table whose
  header row contains the eight expected column titles. It then turns each data row into an event
  record. A row is skipped when it has fewer than eight data cells or when its start date does not
  parse. An end date that does not parse falls back to the start date. The location joins the
  non-empty parts of city, state and country with `", "`. The summary is the name, then
  ` (variant)` when there is a variant, then ` [MAJOR]` when the major cell reads "yes" in any case.
- **Encoder.** It escapes TEXT values and renders dates as `YYYYMMDD`. DTEND is the day after the
  stored end, because all-day ranges have an exclusive end. It emits the calendar envelope, one
  VEVENT block per record, and CRLF after every line.

Modules:

- `Strings` holds string helpers: ASCII lower-casing, Python's `in` on strings, `sep.join`,
  decimal digits, and string order.
- `Dates` holds Gregorian dates as `datetime` holds them, the next day, and the day ordinal used to
  justify it.
- `DateText` holds `strptime("%Y-%m-%d")` as CPython's directive patterns accept it, and the
  `strftime` formats.
- `Extractor` holds the page as tables of rows of cells, the table choice, the row loop and the
  resulting records.
- `Escaping` holds `escape` and its inverse.
- `Encoder` holds `generate_ics` and the document structure.
- `WorkedExample` runs one concrete row through the extractor and the date rendering.

The three loops of the script are methods proved against specification functions:

- `Extractor.FindTournamentTable` against `FirstTournamentTable`;
- `Extractor.FetchEvents` against `ExtractEvents`;
- `Encoder.GenerateIcs` against `Render(CalendarLines(..))`.

The expression-only helpers (`escape`, `format_dt`, the location and summary expressions) are
functions.

Three facts about the script shape the model:

- The script never checks that a record's end is on or after its start: an end cell holding an
  earlier date is kept as it is. `Encoder.AllDayRange` shows what then happens: DTEND's value
  sorts after DTSTART's exactly when the end is not before the start.
- Dates are read with `strptime(text, "%Y-%m-%d")`, which is more lenient than the `YYYY-MM-DD`
  shape the page uses: it accepts a one-digit month, a one-digit day, and a day padded with a
  space (`2024-5-1`, `2024-05- 1`). It rejects text after a zero-padded date, year 0 and dates that
  do not exist (`2023-02-29`). After a one-digit day, a further digit is read as part of the day
  (`2024-05-1` followed by `0` is May 10).
- The script locates the table only by its header row and renders only all-day events; there is
  no other strategy and no timed-event mode.

## Model

| member | source | states |
|---|---|---|
| `Strings.AsciiLowerIsYes` | generate_calendar.py:90 | `major.lower() == "yes"` holds exactly for a three-letter text spelling y, e, s in any mix of cases |
| `Strings.AsciiLowerHasNoUpper` | generate_calendar.py:28 | a lower-cased text holds no letter `A`..`Z` |
| `Strings.AsciiLowerIdempotent` | generate_calendar.py:28 | lower-casing an already lower-cased text changes nothing |
| `Strings.ContainsIffOccurs` | generate_calendar.py:31-33 | `h in text` holds exactly when `h` occurs in `text` at some offset |
| `Strings.NonEmpty` | generate_calendar.py:84 | the filter `[p for p in parts if p]` returns no empty part and never more parts than it was given |
| `Strings.NonEmptyAppend` | generate_calendar.py:84 | the filter works part by part in order: filtering a concatenation concatenates the filtered pieces |
| `Strings.NonEmptySingle` | generate_calendar.py:84 | a single part is kept exactly when it is non-empty |
| `Strings.JoinShape` | generate_calendar.py:84 | `sep.join(parts)`: empty only for no parts, starts with the first part, ends with the last, length is the parts' total plus one separator per gap between neighbours |
| `Strings.JoinSingle` | generate_calendar.py:84 | `sep.join` of one part is that part, with no separator |
| `Strings.JoinAppend` | generate_calendar.py:84 | for non-empty runs `a` and `b`, `sep.join(a + b)` is `sep.join(a)`, one separator, then `sep.join(b)`; with JoinSingle: every part in order with exactly one separator between neighbours |
| `Strings.LexLessAsymmetric` | generate_calendar.py:134-135 | string order is strict: never both ways and never reflexive (used to compare DTSTART and DTEND values) |
| `Strings.DigitsValue` | generate_calendar.py:104-105 | `%04d`/`%02d`-style zero-padded digits read back as the number written |
| `Strings.NatOfInjective` | generate_calendar.py:104-105 | equal-length digit strings with the same value are the same string |
| `Strings.DigitOrderIsNumericOrder` | generate_calendar.py:104-105 | for equal-length digit strings, the smaller number is the smaller string |
| `Dates.NextDay` | generate_calendar.py:135 | `end + timedelta(days=1)` is a valid date strictly later than `end` |
| `Dates.NextDayOrdinal` | generate_calendar.py:135 | the next day advances the day ordinal by exactly one |
| `Dates.OrdinalOrder` | generate_calendar.py:135 | chronological order and ordinal order agree, both directions |
| `Dates.NextDayIsSuccessor` | generate_calendar.py:135 | a date is later than `d` exactly when it is the next day or later than it: no day is skipped |
| `Dates.NextDayExamples` | generate_calendar.py:135 | month, year and leap-day rollovers (2024-02-28 to 02-29, 1900-02-28 to 03-01, 2023-12-31 to 2024-01-01) |
| `DateText.ParseIsoDate` | generate_calendar.py:72-80 | `strptime(text, "%Y-%m-%d")` yields only dates `datetime` can hold; every other text is the error branch |
| `DateText.MonthFieldSpelling` | generate_calendar.py:73 | a text `%m` accepts is worth a month from 1 to 12 and is one of that month's spellings |
| `DateText.DayFieldSpelling` | generate_calendar.py:73 | a text `%d` accepts at the end is worth a day from 1 to 31 and is one of that day's spellings |
| `DateText.MonthTextIsField` | generate_calendar.py:73 | every spelling of month `m` (two digits, or one digit below 10) is accepted by `%m` and read as `m` |
| `DateText.DayTextIsField` | generate_calendar.py:73 | every spelling of day `d` (two digits, or one digit or a space and one digit below 10) is accepted by `%d` and read as `d` |
| `DateText.ParseIsoFields` | generate_calendar.py:73 | four year digits, a dash, any month field, a dash and any day field parse to the date they denote when it exists, and fail otherwise |
| `DateText.ParseIsoSpelling` | generate_calendar.py:72-80 | parsing yields date `d` if and only if `d` exists and the text is four year digits, a dash, a spelling of `d`'s month, a dash and a spelling of `d`'s day |
| `DateText.ParseIsoZeroPadded` | generate_calendar.py:73 | a text of four year digits, a dash, two month digits, a dash and two day digits is accepted exactly when its date exists, and yields that date |
| `DateText.MonthDigits` | generate_calendar.py:73 | a zero-padded month `01`..`12` matches `%m` and reads as that month |
| `DateText.DayDigits` | generate_calendar.py:73 | a zero-padded day `01`..`31` matches `%d` and reads as that day |
| `DateText.ParseIsoText` | generate_calendar.py:73 | a zero-padded `Y-M-D` text is accepted exactly when its date exists, and yields that date |
| `DateText.IsoTextRoundTrip` | generate_calendar.py:73 | every valid date written zero-padded parses back to itself |
| `DateText.ParseIsoRejectsTrailing` | generate_calendar.py:73-75 | any text after a zero-padded date makes the row's start date fail |
| `DateText.ParseIsoShortFields` | generate_calendar.py:73 | one-digit months and one-digit or space-padded days are accepted with their values |
| `DateText.ParseIsoLeapDay` | generate_calendar.py:73 | February 29 of a year parses exactly when the year is a leap year |
| `DateText.ParseIsoAcceptsShortFields` | generate_calendar.py:73 | `2024-5-1` parses as May 1 |
| `DateText.ParseIsoRejectsYearZero` | generate_calendar.py:73-75 | `0000-01-01` does not parse |
| `DateText.FormatDate` | generate_calendar.py:104-105 | `format_dt` yields eight characters |
| `DateText.FormatDateFields` | generate_calendar.py:104-105 | the eight characters are digits whose year, month and day fields read back as the date |
| `DateText.FormatDateInjective` | generate_calendar.py:104-105 | distinct dates render differently |
| `DateText.DigitsOrder` | generate_calendar.py:104-105 | zero-padded numbers of one width sort as text in numeric order |
| `DateText.FormatDateOrder` | generate_calendar.py:104-105 | a later date renders to a larger string |
| `DateText.FormatStamp` | generate_calendar.py:125 | DTSTAMP is sixteen characters: the date's eight, `T`, six more, and `Z` |
| `DateText.FormatStampFields` | generate_calendar.py:125 | the six characters after `T` are two digits each of hour, minute and second, reading back as the clock |
| `Extractor.HeaderTexts` | generate_calendar.py:27-28 | one text per header cell, the cell's text lower-cased, with no upper-case letter left |
| `Extractor.FirstTournamentTable` | generate_calendar.py:19-36 | none exactly when no table matches; otherwise a matching table with no matching table before it |
| `Extractor.FindTournamentTable` | generate_calendar.py:19-36 | the loop returns the first table with rows whose header texts contain the eight expected titles in order, or none |
| `Extractor.FirstMatchWins` | generate_calendar.py:22-34 | when two tables match, the later one is never chosen: the choice is the earlier one or a table before it |
| `Extractor.DataCellsAreTdCells` | generate_calendar.py:54 | a cell is among the row's `find_all("td")` cells exactly when it is a `td` cell of the row |
| `Extractor.DataCellsAppend` | generate_calendar.py:54 | the cells are taken in row order: the `td` cells of two runs of cells are those of each in turn |
| `Extractor.DataCellSingle` | generate_calendar.py:54 | a single cell is kept exactly when it is a `td` cell |
| `Extractor.NameOf` | generate_calendar.py:59-60 | the name is the first cell's anchor text, or "NAF Tournament" when the cell has no anchor |
| `Extractor.LinkOf` | generate_calendar.py:59-61 | the link is the anchor's `href`, or empty when there is no anchor or it has no `href` |
| `Extractor.Location` | generate_calendar.py:83-84 | the location is empty exactly when city, state and country all are |
| `Extractor.Summary` | generate_calendar.py:86-91 | the summary is the bare name exactly when the variant is empty and major does not lower-case to "yes" |
| `Extractor.RowEvent` | generate_calendar.py:53-99 | a row yields a record exactly when it has at least eight data cells and a parseable start date; the record's dates are valid |
| `Extractor.EndDateFallback` | generate_calendar.py:71-80 | start is the parsed start cell; end is the parsed end cell, or the start when that cell does not parse |
| `Extractor.LocationCases` | generate_calendar.py:82-84 | the location in closed form for all eight cases: the non-empty parts among city, state and country, in that order, joined by `", "` (for example `city + ", " + state + ", " + country` when none is empty) |
| `Extractor.LocationShape` | generate_calendar.py:82-84 | a location with some non-empty part starts with the first non-empty part, ends with the last, and its length is the parts' total length plus two characters per gap between neighbours |
| `Extractor.SummaryShape` | generate_calendar.py:86-91 | the summary starts with the name, holds ` (variant)` right after it for a non-empty variant, ends with ` [MAJOR]` when major lower-cases to "yes", and has exactly those lengths |
| `Extractor.EventCount` | generate_calendar.py:53-99 | one record per kept row |
| `Extractor.KeptRowYieldsEvent` | generate_calendar.py:93-99 | each kept row's record sits at the position given by the number of kept rows before it |
| `Extractor.EventComesFromRow` | generate_calendar.py:93-99 | every record comes from a kept row, in row order |
| `Extractor.EventsOfRowsAppend` | generate_calendar.py:53-99 | the records of two runs of rows are the records of each, concatenated |
| `Extractor.NoTableNoEvents` | generate_calendar.py:46-49 | with no matching table there are no records |
| `Extractor.RowRecord` | generate_calendar.py:54-99 | one pass of the row loop produces exactly the row's record, or nothing where the loop moves on |
| `Extractor.EventsOfRowsGrow` | generate_calendar.py:53-99 | one more row adds exactly that row's record, if any, to the end of the records |
| `Extractor.ExtractEvents` | generate_calendar.py:44-101 | no records without a tournament table; otherwise exactly as many records as the table's data rows that are kept |
| `Extractor.FetchEvents` | generate_calendar.py:44-101 | the row loop, with its skips and fallbacks, builds exactly the records of the chosen table's data rows |
| `Escaping.Escape` | generate_calendar.py:108-114 | the escaped text holds no line feed and is never shorter than the input |
| `Escaping.EscapeIsCharwise` | generate_calendar.py:108-114 | the four chained replacements, backslash first, equal escaping each character on its own |
| `Escaping.EscapeAppend` | generate_calendar.py:108-114 | escaping distributes over concatenation |
| `Escaping.EscapeOneChar` | generate_calendar.py:108-114 | on one character the chain doubles a backslash, prefixes `,` and `;` with a backslash, turns a newline into `\n` and keeps anything else |
| `Escaping.UnescapeEscape` | generate_calendar.py:108-114 | reading the escaped text back recovers the original |
| `Escaping.EscapeInjective` | generate_calendar.py:108-114 | distinct texts escape differently |
| `Escaping.EscapeLength` | generate_calendar.py:108-114 | escaping adds exactly one character per backslash, comma, semicolon and newline |
| `Escaping.EscapeIsEscapedText` | generate_calendar.py:108-114 | every backslash in the result starts one of the four escapes, and no comma, semicolon or newline stands bare |
| `Escaping.EscapedTextHasNoNewline` | generate_calendar.py:108-114 | escaped text holds no line feed, so it cannot split its content line (a carriage return passes through unchanged) |
| `Escaping.EscapeKeepsPlainText` | generate_calendar.py:108-114 | text without the four special characters is unchanged |
| `Escaping.EscapeExample` | generate_calendar.py:108-114 | `a,b` escapes to `a\,b` |
| `Encoder.EventLines` | generate_calendar.py:128-145 | an event's block has 7 lines, plus one for a non-empty location and one for a non-empty link, with exactly one BEGIN:VEVENT and one END:VEVENT |
| `Encoder.CalendarLines` | generate_calendar.py:117-147 | the document's lines open with the five envelope lines and close with END:VCALENDAR |
| `Encoder.Render` | generate_calendar.py:148 | the rendered document always ends with CRLF |
| `Encoder.GenerateIcs` | generate_calendar.py:117-148 | the method's appends, then the CRLF join plus a final CRLF, produce exactly the rendered calendar lines |
| `Encoder.AppendEvent` | generate_calendar.py:127-145 | one pass of the loop appends exactly the event's block to the lines |
| `Encoder.RenderTerminatesEveryLine` | generate_calendar.py:148 | join-with-CRLF plus a final CRLF is every line followed by its own CRLF |
| `Encoder.EventBlocksGrow` | generate_calendar.py:127-145 | the blocks of one more event are the earlier blocks followed by that event's block |
| `Encoder.BlockInterior` | generate_calendar.py:129-145 | a block has 7 lines plus one with the location flag and one with the URL flag; it opens with BEGIN:VEVENT, closes with END:VEVENT, and each line in between starts with U, D, S or L |
| `Encoder.BlockMarkers` | generate_calendar.py:129-145 | a block holds exactly one BEGIN:VEVENT and one END:VEVENT, as its first and last lines |
| `Encoder.BlockOptional` | generate_calendar.py:139-143 | a block has a line starting `LOCATION:` exactly when the location flag is set, and one starting `URL:` exactly when the URL flag is set |
| `Encoder.LocationAbsent` | generate_calendar.py:139-140 | without the location flag, no line of the block starts with `LOCATION:` |
| `Encoder.UrlAbsent` | generate_calendar.py:142-143 | without the URL flag, no line of the block starts with `URL:` |
| `Encoder.EventLinesShape` | generate_calendar.py:127-145 | an event's block opens with BEGIN:VEVENT, closes with END:VEVENT, and has a LOCATION line exactly for a non-empty location and a URL line exactly for a non-empty link |
| `Encoder.EnvelopeHasNoMarkers` | generate_calendar.py:118-123 | neither the five envelope lines nor END:VCALENDAR is a BEGIN:VEVENT or END:VEVENT line |
| `Encoder.BlockCounts` | generate_calendar.py:127-145 | the blocks hold one BEGIN:VEVENT and one END:VEVENT per event, and as many lines as the per-event counts add up to |
| `Encoder.DocumentStructure` | generate_calendar.py:117-148 | the document pairs one BEGIN:VEVENT with one END:VEVENT per event, and has 6 lines beyond its blocks |
| `Encoder.EmptyCalendar` | generate_calendar.py:117-148 | with no events the output is the envelope and END:VCALENDAR, each CRLF-terminated |
| `Encoder.AllDayRange` | generate_calendar.py:133-135 | DTEND's value sorts after DTSTART's exactly when the end is not before the start, and the block then covers end - start + 1 days |
| `Encoder.SingleDayEvent` | generate_calendar.py:134-135 | when end equals start, DTEND is the day after DTSTART and sorts after it |
| `Encoder.UnreadableEndIsSingleDay` | generate_calendar.py:77-80 | a kept row with an unreadable end cell renders as a one-day event |
| `WorkedExample.SpringOpenDatesParse` | generate_calendar.py:73-80 | the row's cells `2024-05-10` and `2024-05-12` parse as those dates |
| `WorkedExample.SpringOpenRecord` | generate_calendar.py:53-99 | the Spring Open row yields summary `Spring Open (Sevens) [MAJOR]`, dates May 10 and May 12 2024, location `Fresno, CA, USA`, link `x` |
| `WorkedExample.SpringOpenDateTexts` | generate_calendar.py:134-135 | that event's DTSTART value is `20240510` and its DTEND value `20240513` |

## Left out

- The download (lines 40-42) and BeautifulSoup's parsing are left out. The page is given as a
  sequence of tables, each a sequence of rows of cells.
- Each cell carries its stripped text and its first anchor. Rows of nested tables, which the
  source's recursive `find_all("tr")` would also visit, are not represented.
- The "Tournament table not found" message (line 48) and the file write under `__main__`
  (lines 151-154) are I/O and are left out.
- `uuid.uuid4()` and `datetime.utcnow()` are not modelled. They become the parameters `uuids` and
  `now` of `GenerateIcs`.
- `str.lower()` and the `\d` of `strptime` are modelled on ASCII only. Unicode case mappings and
  non-ASCII decimal digits are not modelled.
- The test `if not table` (line 47) is modelled as "no table was found".
- GenerateIcs: requires every event to be renderable. That means a start and end year of at least
  1000 and an end before 9999-12-31. The source raises OverflowError on a 9999-12-31 end. It writes
  years below 1000 with platform-dependent `%Y` padding. Neither path is modelled.
- Content lines longer than 75 octets are not folded (section 3.1 of RFC 5545). The source does
  not fold them, and neither does the model.
