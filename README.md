# PublicHolidays: the sparse holiday table

`PublicHolidays/main.py` writes a comma-separated table of public holidays.
The header line is `date,<code>_holidays,...`, with one column per
configured country. After it comes one line per calendar day of a half-open
date range on which at least one country has a holiday. Each line holds the
day formatted as `%Y-%m-%d`, then each country's holiday name in list order.
The name is empty when the country has none that day, and any comma in a
name is replaced by `|`.

For the United States, and only when a flag is set, two gaps in the
calendar are filled:
- Good Friday fills the day two days before Easter when the calendar has no
  entry at all.
- Easter Sunday fills Easter when the calendar's entry is missing or empty.

The country is recognised by `code.upper() == "US"`. This model covers:
- `date_range`;
- `get_csv_header`;
- `get_holiday_data`, including its calendar set-up, per-day name
  resolution, the "exists" flag and the row writer.

Two modules:

- `Text` (`text.dfy`): joining fields with a separator, the line and table
  renderings, the comma escape, and a reader (`Split`, `Parse`). The reader
  is used to prove that the written text can be read back as the table.
- `Holidays` (`holidays.dfy`): the model of `main.py`.
  - The loops of the source are methods (`DateRange`, `CsvHeader`,
    `BuildCalendars`, `ResolveDay`, `AppendRow`, `AppendDay`,
    `AppendHolidayRows`, `GetHolidayData`).
  - Each method is proved against a specification function: `Days`,
    `HeaderFields`/`Line`, `Field`/`Fields`/`HasHoliday`, and
    `Table`/`Render`.
  - The properties of the source are proved about those functions.

Code outside `main.py` is passed in as the fields of an `Env` value:
- whether the holiday library knows a country code;
- each country's calendar lookup;
- the Easter date of a year;
- the year of a day;
- the date formatting.

Days are whole day numbers, so the day after `d` is `d + 1`.

## Model

| member | source | states |
|---|---|---|
| Holidays.Days | PublicHolidays/main.py:24-26 | the range has `end - start` days (none when `end <= start`) and its i-th day is `start + i` |
| Holidays.DateRange | PublicHolidays/main.py:24-26 | the counting loop yields exactly the days of `Days(start, end)`, in order |
| Holidays.DaysInRange | PublicHolidays/main.py:24-26 | a day is produced iff `start <= d < end` (the end day is excluded), and the days strictly increase |
| Holidays.CsvHeader | PublicHolidays/main.py:29-34 | the header is the line of "date" followed by `<code>_holidays` for each country, in list order, comma-separated and newline-terminated |
| Holidays.UsHeader | PublicHolidays/main.py:29-34 | for the countries `["US"]` the header fields are `date` and `US_holidays` |
| Holidays.OverrideTargetSpellings | PublicHolidays/main.py:72-79 | the override test holds iff the upper-cased code equals "US", iff the code is `u`/`U` followed by `s`/`S`/long s |
| Holidays.Resolve | PublicHolidays/main.py:70-80 | the resolved name is the calendar's answer, or Good Friday on Easter minus two when the answer is missing, or Easter Sunday on Easter when the answer is missing or empty; the last two only when the flag is set and the country is the US |
| Holidays.GoodFridayFillsGap | PublicHolidays/main.py:72-75 | two days before Easter, with the flag set and the US, a missing entry becomes "Good Friday" and any present entry (even "") is kept |
| Holidays.EasterSundayFillsGap | PublicHolidays/main.py:77-80 | on Easter, with the flag set and the US, a non-empty entry is kept and a missing or empty one becomes "Easter Sunday" |
| Holidays.CalendarAnswerUnchanged | PublicHolidays/main.py:70-80 | with the flag off, for a country other than the US, or on any day other than Easter and Easter minus two, the calendar's answer is used unchanged |
| Holidays.Field | PublicHolidays/main.py:82-86 | a column holds no comma; it is empty iff the resolved name is missing or empty; otherwise it is the escaped name |
| Holidays.CalendarNameShown | PublicHolidays/main.py:70-86 | a non-empty calendar name is never overwritten by the overrides and is shown escaped |
| Holidays.FieldHasNoLineBreak | PublicHolidays/main.py:72-86 | a column holds no line break when the calendar's name holds none (the synthesized names have none, and escaping adds none) |
| Text.Escape | PublicHolidays/main.py:84 | escaping keeps the length and leaves no comma |
| Text.EscapeFixedPoint | PublicHolidays/main.py:84 | escaping changes a name iff it holds a comma, and escaping twice equals escaping once |
| Text.EscapeKeepsOtherChars | PublicHolidays/main.py:84 | any character other than the comma and the pipe occurs in the escaped name iff it occurs in the name |
| Holidays.BuildCalendars | PublicHolidays/main.py:59-62 | set-up fails iff some code is unknown to the library; the code reported is the first unknown one in list order; on success every country has its own calendar |
| Holidays.ResolveDay | PublicHolidays/main.py:67-86 | every country gets a stored column, the stored columns in list order are the specified `Fields`, and the "exists" flag is set iff some column is non-empty |
| Holidays.AppendRow | PublicHolidays/main.py:89-94 | the text grows by exactly the line of the date followed by each country's stored column, in list order |
| Holidays.AppendDay | PublicHolidays/main.py:64-94 | one day appends that day's row line when some country has a holiday on it and nothing otherwise |
| Holidays.DayStep | PublicHolidays/main.py:88-94 | the specified text after one more day is the text so far plus that day's line exactly when the day has a holiday |
| Holidays.AppendHolidayRows | PublicHolidays/main.py:64-96 | after the day loop, the text is the rendering of the header and one row per holiday day visited, in visiting order |
| Holidays.GetHolidayData | PublicHolidays/main.py:37-96 | with the override flag on unless the caller turns it off, the run fails iff some country is unknown to the library, reporting the first unknown one; otherwise it returns exactly the rendering of `Table` for the range |
| Holidays.HolidayDaysFilter | PublicHolidays/main.py:88-94 | the kept days are exactly the visited days with a holiday, never more than the days visited, and in increasing order when the days were |
| Holidays.TableRows | PublicHolidays/main.py:37-96 | the header comes first; there is one row per day of `[start, end)` with a holiday and none for any other day; rows come in strictly increasing day order, never more than the days of the range; each row is the date and one column per country, with no comma in a column |
| Holidays.HeaderOnly | PublicHolidays/main.py:58-96 | when no day of the range has a holiday (in particular an empty range) the text is the header line alone |
| Holidays.TextStartsWithHeader | PublicHolidays/main.py:58-96 | the written text always begins with the header line, whatever rows follow it |
| Holidays.TextReadsBack | PublicHolidays/main.py:82-94 | reading the written text with a comma-separated reader gives back the table, when codes, dates and calendar names hold no line break and codes and dates no comma |
| Text.ParseRender | PublicHolidays/main.py:89-94 | a rendered table of non-empty rows whose fields hold no ',' or '\n' reads back as the same table |
| Text.SplitJoin | PublicHolidays/main.py:89-94 | cutting the line at ',' gives back the fields it was joined from, when no field holds ',' |
| Text.JoinSplit | PublicHolidays/main.py:89-94 | joining the pieces cut at a separator gives back the original text |
| Holidays.RowLineCommas | PublicHolidays/main.py:89-94 | the line written for a day holds exactly one comma per country (so one column per country) when the formatted date holds no comma |
| Holidays.OneDayTable | PublicHolidays/main.py:64-96 | a one-day range whose day has a holiday gives the header and that day's row |
| Holidays.ThreeDayTable | PublicHolidays/main.py:88-94 | in a three-day range whose middle day has no holiday, the rows are the first and last days only |
| Holidays.NewYearRow | PublicHolidays/main.py:70-86 | a day the US calendar names "New Year's Day" gives the row of the date and "New Year's Day" and has a holiday, wherever Easter falls |
| Holidays.NewYearExample | PublicHolidays/main.py:37-96 | a one-day range on a day the US calendar names "New Year's Day" gives the header `date,US_holidays` and that one row |
| Holidays.NewYearText | PublicHolidays/main.py:37-96 | that table is written as `date,US_holidays\n<date>,New Year's Day\n` |
| Holidays.EasterWeekendRows | PublicHolidays/main.py:72-86 | with no US calendar entries over Easter weekend, Good Friday and Easter get the synthesized names and Holy Saturday has no holiday |
| Holidays.EasterWeekendExample | PublicHolidays/main.py:37-96 | over that weekend the table is the header, a Good Friday row and an Easter Sunday row, with no Holy Saturday row |

## Left out

- The `__main__` block (`PublicHolidays/main.py:99-112`) is not modelled. It parses the dates, opens the output file, writes the text and prints a message. Because the range is half-open (see `Holidays.DaysInRange`), the configured end day 2069-12-31 is not in the output, although the file's header comment says the range runs up to it.
- The holiday library is not part of this model. `Env.supported` stands for whether `holidays.country_holidays(code)` succeeds. `Env.countryHolidays` stands for the `.get(day)` lookup. The library's own rules, its aliasing of codes and its exception type are not modelled. An unknown code is modelled as the `Unsupported` outcome in place of the raised exception.
- `dateutil.easter.easter` is kept abstract as `Env.easter`. The computus is not modelled.
- Date handling is kept abstract: `date.year` (`Env.year`), `strftime("%Y-%m-%d")` (`Env.format`) and calendar arithmetic (days are whole numbers).
- The time-of-day part of the `datetime` inputs is not modelled. The source floors `(end - start).days` and keeps `start.date()`. The model takes whole days.
- Holidays.UpperChar: `str.upper` is modelled only for the characters that upper-case to 'U' or 'S' (ASCII a-z, and U+017F LATIN SMALL LETTER LONG S to 'S'); every other character is kept as it is, and the rest of Unicode case mapping, including mappings to several characters, is not modelled.
- The "exists" flag is a separate boolean in the model. In the source it shares a dictionary with the per-country names. A country whose code is literally `exists` would overwrite the flag. The holiday library rejects such a code before the day loop, so this collision is not modelled.
- A line break inside a calendar name is not escaped by the source, and neither is a comma or line break in a country code or formatted date. `Holidays.TextReadsBack` therefore requires that these fields hold none.
- Memory, I/O errors and performance of building a long text by repeated concatenation are not modelled.
