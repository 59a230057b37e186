/** The sparse holiday table of PublicHolidays/main.py: for every day of a
    half-open range and every configured country, the holiday name that the
    country's calendar gives (filled in, for the United States, with Good
    Friday and Easter Sunday when asked), written as comma-separated rows for
    the days on which at least one country has a holiday. */
module Holidays {
  import opened Text

  /** A calendar day as a day number: the day after `d` is `d + 1`. */
  type Day = int

  datatype Option<T> = None | Some(value: T)

  /** What the table builder takes from code outside main.py, fixed for one run:
      - `supported(code)`: `holidays.country_holidays(code)` succeeds, that is
        the library knows the country;
      - `countryHolidays(code)(d)`: `holidays.country_holidays(code).get(d)`;
      - `easter(y)`: `dateutil.easter.easter(y)`, the day of Western Easter in year `y`;
      - `year(d)`: `d.year`;
      - `format(d)`: `d.strftime("%Y-%m-%d")`. */
  datatype Env = Env(
    supported: string -> bool,
    countryHolidays: string -> Day -> Option<string>,
    easter: int -> Day,
    year: Day -> int,
    format: Day -> string)

  /** The result of a run: the table's text, or the first configured country
      the holiday library does not know (the library raises on it, so no text
      is produced). */
  datatype Outcome = Ok(text: string) | Unsupported(code: string)

  // ---------------------------------------------------------------------------
  // date_range

  /** The days `start, start + 1, ..., end - 1`; none at all when `end <= start`. */
  function Days(start: Day, end: Day): (r: seq<Day>)
    ensures |r| == if end <= start then 0 else end - start
    ensures forall i :: 0 <= i < |r| ==> r[i] == start + i
    decreases end - start
  {
    if end <= start then [] else Days(start, end - 1) + [end - 1]
  }

  /** `date_range(start, end)`: counts `n` up from 0 while `n < end - start` and yields
      `start + n`. The end day itself is never produced, so the run configured in
      main.py (end 2069-12-31) stops at 2069-12-30. */
  method DateRange(start: Day, end: Day) returns (days: seq<Day>)
    ensures days == Days(start, end)
  {
    days := [];
    var n := 0;
    while n < end - start
      invariant 0 <= n && (n <= end - start || n == 0)
      invariant days == Days(start, start + n)
    {
      days := days + [start + n];
      n := n + 1;
    }
  }

  /** The range holds exactly the days from `start` up to but not including
      `end`, each once and in increasing order. */
  lemma DaysInRange(start: Day, end: Day)
    ensures forall d :: d in Days(start, end) <==> start <= d < end
    ensures forall i, j :: 0 <= i < j < |Days(start, end)| ==> Days(start, end)[i] < Days(start, end)[j]
  {
    var r := Days(start, end);
    forall d | start <= d < end
      ensures d in r
    {
      assert r[d - start] == d;
    }
  }

  // ---------------------------------------------------------------------------
  // get_csv_header

  /** The header's fields: "date", then "<code>_holidays" per country in list order. */
  function HeaderFields(countries: seq<string>): seq<string>
  {
    ["date"] + seq(|countries|, j requires 0 <= j < |countries| => countries[j] + "_holidays")
  }

  /** `get_csv_header(countries)`: starts from "date", appends "," and the
      column name for each country, and ends the line. */
  method CsvHeader(countries: seq<string>) returns (header: string)
    ensures header == Line(HeaderFields(countries))
  {
    ghost var columns := HeaderFields(countries)[1..];
    var row := "date";
    var k := 0;
    while k < |countries|
      invariant 0 <= k <= |countries|
      invariant row == "date" + Prefixed(columns[..k], ',')
    {
      assert columns[..k + 1][..k] == columns[..k];
      row := row + "," + countries[k] + "_holidays";
      k := k + 1;
    }
    assert columns[..|countries|] == columns;
    header := row + "\n";
  }

  // ---------------------------------------------------------------------------
  // Holiday resolution (the body of the inner loop of get_holiday_data)

  /** Python's `str.upper` on one character, for the characters that can
      upper-case to 'U' or 'S': the ASCII lower-case letters, and U+017F
      LATIN SMALL LETTER LONG S, which upper-cases to 'S'. */
  function UpperChar(c: char): char
  {
    if 'a' <= c <= 'z' then (c as int - 32) as char
    else if c == '\U{017F}' then 'S'
    else c
  }

  /** Python's `str.upper` with the character mapping above; it keeps the length. */
  function Upper(s: string): string
  {
    seq(|s|, i requires 0 <= i < |s| => UpperChar(s[i]))
  }

  /** The override rules apply to the country whose code upper-cases to "US":
      two characters, upper-casing to 'U' and 'S'. */
  predicate IsOverrideTarget(code: string)
  {
    |code| == 2 && UpperChar(code[0]) == 'U' && UpperChar(code[1]) == 'S'
  }

  /** The test above is `code.upper() == "US"`, and the codes that pass it are
      exactly the two-letter spellings u/U followed by s/S/long s. */
  lemma OverrideTargetSpellings(code: string)
    ensures IsOverrideTarget(code) <==> Upper(code) == "US"
    ensures IsOverrideTarget(code) <==> |code| == 2 && code[0] in "uU" && code[1] in "sS\U{017F}"
  {
    if |code| == 2 {
      assert Upper(code)[0] == UpperChar(code[0]) && Upper(code)[1] == UpperChar(code[1]);
      assert Upper(code) == "US" <==> Upper(code)[0] == 'U' && Upper(code)[1] == 'S';
    } else {
      assert |Upper(code)| != |"US"|;
    }
  }

  /** Python truthiness of a holiday name: present and not the empty string. */
  predicate NonEmpty(name: Option<string>)
  {
    name.Some? && name.value != ""
  }

  /** The holiday name of `code` on day `d` after the Good Friday and Easter
      Sunday rules, before escaping. The rules only fill gaps: the result is
      the calendar's own answer, or "Good Friday" two days before Easter when
      the calendar has no entry at all, or "Easter Sunday" on Easter when the
      calendar's entry is missing or empty, and the last two only when the flag
      is set and the country is the United States. */
  function Resolve(env: Env, flag: bool, code: string, d: Day): (r: Option<string>)
    ensures var base := env.countryHolidays(code)(d);
      var easterDay := env.easter(env.year(d));
      r == base
      || (flag && IsOverrideTarget(code) && d == easterDay - 2 && base.None? && r == Some("Good Friday"))
      || (flag && IsOverrideTarget(code) && d == easterDay && !NonEmpty(base) && r == Some("Easter Sunday"))
  {
    var base := env.countryHolidays(code)(d);
    var easterDay := env.easter(env.year(d));
    var afterGoodFriday :=
      if flag && IsOverrideTarget(code) && d == easterDay - 2 && base.None? then Some("Good Friday") else base;
    if flag && IsOverrideTarget(code) && d == easterDay && !NonEmpty(afterGoodFriday) then Some("Easter Sunday")
    else afterGoodFriday
  }

  /** Two days before Easter, a United States calendar with no entry gets
      "Good Friday"; any entry, even an empty one, is kept. */
  lemma GoodFridayFillsGap(env: Env, flag: bool, code: string, d: Day)
    requires flag && IsOverrideTarget(code) && d == env.easter(env.year(d)) - 2
    ensures Resolve(env, flag, code, d) ==
      if env.countryHolidays(code)(d).None? then Some("Good Friday") else env.countryHolidays(code)(d)
  {
  }

  /** On Easter, a United States calendar entry that is a non-empty name is
      kept; a missing or empty one becomes "Easter Sunday". */
  lemma EasterSundayFillsGap(env: Env, flag: bool, code: string, d: Day)
    requires flag && IsOverrideTarget(code) && d == env.easter(env.year(d))
    ensures Resolve(env, flag, code, d) ==
      if NonEmpty(env.countryHolidays(code)(d)) then env.countryHolidays(code)(d) else Some("Easter Sunday")
  {
  }

  /** With the flag off, for any country but the United States, and on any
      day that is neither Easter nor two days before it, the calendar's answer
      is used unchanged: no name is synthesized. */
  lemma CalendarAnswerUnchanged(env: Env, flag: bool, code: string, d: Day)
    requires !flag || !IsOverrideTarget(code) || (d != env.easter(env.year(d)) - 2 && d != env.easter(env.year(d)))
    ensures Resolve(env, flag, code, d) == env.countryHolidays(code)(d)
  {
  }

  /** The text written in `code`'s column on day `d`: the resolved name with
      commas replaced by '|', or "" when there is no name. */
  function Field(env: Env, flag: bool, code: string, d: Day): (r: string)
    ensures ',' !in r
    ensures r == "" <==> !NonEmpty(Resolve(env, flag, code, d))
    ensures NonEmpty(Resolve(env, flag, code, d)) ==> r == Escape(Resolve(env, flag, code, d).value)
  {
    var name := Resolve(env, flag, code, d);
    if NonEmpty(name) then Escape(name.value) else ""
  }

  /** A non-empty name from the calendar is never overwritten: it is what the
      column shows, escaped. */
  lemma CalendarNameShown(env: Env, flag: bool, code: string, d: Day)
    requires NonEmpty(env.countryHolidays(code)(d))
    ensures Field(env, flag, code, d) == Escape(env.countryHolidays(code)(d).value)
  {
  }

  /** A column holds no line break when the calendar's name for that day holds none. */
  lemma FieldHasNoLineBreak(env: Env, flag: bool, code: string, d: Day)
    requires env.countryHolidays(code)(d).Some? ==> '\n' !in env.countryHolidays(code)(d).value
    ensures '\n' !in Field(env, flag, code, d)
  {
    var name := Resolve(env, flag, code, d);
    if NonEmpty(name) {
      if name != env.countryHolidays(code)(d) {
        assert name.value == "Good Friday" || name.value == "Easter Sunday";
        assert '\n' !in name.value;
      }
      EscapeKeepsOtherChars(name.value, '\n');
    }
  }

  /** Whether any configured country has a holiday on `d`: the "exists" flag. */
  predicate HasHoliday(env: Env, flag: bool, countries: seq<string>, d: Day)
  {
    exists j :: 0 <= j < |countries| && Field(env, flag, countries[j], d) != ""
  }

  /** The fields of the row for day `d`: the formatted date, then one column
      per country in list order. */
  function RowFields(env: Env, flag: bool, countries: seq<string>, d: Day): seq<string>
  {
    [env.format(d)] + Fields(env, flag, countries, d)
  }

  /** The columns of day `d`, one per country in list order. */
  function Fields(env: Env, flag: bool, countries: seq<string>, d: Day): seq<string>
  {
    seq(|countries|, j requires 0 <= j < |countries| => Field(env, flag, countries[j], d))
  }

  // ---------------------------------------------------------------------------
  // The table

  /** The days of `days` on which some country has a holiday, in the order of `days`. */
  function HolidayDays(env: Env, flag: bool, countries: seq<string>, days: seq<Day>): seq<Day>
  {
    if |days| == 0 then []
    else
      var last := days[|days| - 1];
      HolidayDays(env, flag, countries, days[..|days| - 1])
        + (if HasHoliday(env, flag, countries, last) then [last] else [])
  }

  function Rows(env: Env, flag: bool, countries: seq<string>, days: seq<Day>): seq<seq<string>>
  {
    seq(|days|, i requires 0 <= i < |days| => RowFields(env, flag, countries, days[i]))
  }

  lemma RowsSnoc(env: Env, flag: bool, countries: seq<string>, days: seq<Day>, d: Day)
    ensures Rows(env, flag, countries, days + [d]) == Rows(env, flag, countries, days) + [RowFields(env, flag, countries, d)]
  {
  }

  /** The whole table: the header, then one row per day of `[start, end)` on
      which some country has a holiday. */
  function Table(env: Env, flag: bool, countries: seq<string>, start: Day, end: Day): seq<seq<string>>
  {
    [HeaderFields(countries)]
      + Rows(env, flag, countries, HolidayDays(env, flag, countries, Days(start, end)))
  }

  /** The days kept are exactly the days with a holiday, no more of them than
      there were days, and in increasing order when the days were. */
  lemma {:induction false} HolidayDaysFilter(env: Env, flag: bool, countries: seq<string>, days: seq<Day>)
    ensures var kept := HolidayDays(env, flag, countries, days);
      |kept| <= |days|
      && (forall d :: d in kept <==> d in days && HasHoliday(env, flag, countries, d))
      && ((forall i, j :: 0 <= i < j < |days| ==> days[i] < days[j])
          ==> forall i, j :: 0 <= i < j < |kept| ==> kept[i] < kept[j])
  {
    if |days| > 0 {
      var init := days[..|days| - 1];
      var last := days[|days| - 1];
      HolidayDaysFilter(env, flag, countries, init);
      assert days == init + [last];
      var kept := HolidayDays(env, flag, countries, days);
      if forall i, j :: 0 <= i < j < |days| ==> days[i] < days[j] {
        var keptInit := HolidayDays(env, flag, countries, init);
        forall k | 0 <= k < |keptInit|
          ensures keptInit[k] < last
        {
          assert keptInit[k] in keptInit;
          var m :| 0 <= m < |init| && init[m] == keptInit[k];
          assert days[m] < days[|days| - 1];
        }
      }
    }
  }

  lemma {:induction false} NoHolidayDays(env: Env, flag: bool, countries: seq<string>, days: seq<Day>)
    requires forall i :: 0 <= i < |days| ==> !HasHoliday(env, flag, countries, days[i])
    ensures HolidayDays(env, flag, countries, days) == []
  {
    if |days| > 0 {
      NoHolidayDays(env, flag, countries, days[..|days| - 1]);
    }
  }

  /** What the rows of the table are: one per day of `[start, end)` with a
      holiday and none for any other day, in strictly increasing day order, so
      never more rows than days; each row has the formatted date and one field
      per country, no field of a row holds a comma unless the formatted date
      does, and the header always comes first, even with no rows. */
  lemma TableRows(env: Env, flag: bool, countries: seq<string>, start: Day, end: Day)
    ensures var table := Table(env, flag, countries, start, end);
      var kept := HolidayDays(env, flag, countries, Days(start, end));
      && |table| == 1 + |kept|
      && table[0] == HeaderFields(countries)
      && |table| - 1 <= (if end <= start then 0 else end - start)
      && (forall d :: d in kept <==> start <= d < end && HasHoliday(env, flag, countries, d))
      && (forall i, j :: 0 <= i < j < |kept| ==> kept[i] < kept[j])
      && (forall i :: 0 <= i < |kept| ==> table[i + 1] == RowFields(env, flag, countries, kept[i]))
      && (forall i :: 1 <= i < |table| ==> |table[i]| == 1 + |countries|)
      && (forall i, j :: 1 <= i < |table| && 1 <= j < |table[i]| ==> ',' !in table[i][j])
  {
    DaysInRange(start, end);
    HolidayDaysFilter(env, flag, countries, Days(start, end));
  }

  /** When no country has a holiday on any day of the range (in particular
      when `end <= start`), the text is the header line alone. */
  lemma HeaderOnly(env: Env, flag: bool, countries: seq<string>, start: Day, end: Day)
    requires forall d :: start <= d < end ==> !HasHoliday(env, flag, countries, d)
    ensures Render(Table(env, flag, countries, start, end)) == Line(HeaderFields(countries))
  {
    NoHolidayDays(env, flag, countries, Days(start, end));
    assert Table(env, flag, countries, start, end) == [HeaderFields(countries)];
  }

  /** The text always begins with the header line, whatever rows follow. */
  lemma TextStartsWithHeader(env: Env, flag: bool, countries: seq<string>, start: Day, end: Day)
    ensures Line(HeaderFields(countries)) <= Render(Table(env, flag, countries, start, end))
  {
    var rows := Rows(env, flag, countries, HolidayDays(env, flag, countries, Days(start, end)));
    RenderStartsWithFirst(HeaderFields(countries), rows);
  }

  /** Every row line holds exactly one comma per country, so a row has one
      column per country, when the formatted date holds no comma. */
  lemma RowLineCommas(env: Env, flag: bool, countries: seq<string>, d: Day)
    requires ',' !in env.format(d)
    ensures multiset(Join(RowFields(env, flag, countries, d), ','))[','] == |countries|
  {
    var row := RowFields(env, flag, countries, d);
    forall j | 0 <= j < |row|
      ensures ',' !in row[j]
    {
      if j > 0 {
        assert row[j] == Field(env, flag, countries[j - 1], d);
      }
    }
    SplitJoin(row, ',');
    SplitCount(Join(row, ','), ',');
  }

  /** Reading the text back with a comma-separated reader gives the table,
      provided no country code holds a ',' or '\n', no calendar name of a day
      in the range holds a '\n', and no formatted date holds either. */
  lemma TextReadsBack(env: Env, flag: bool, countries: seq<string>, start: Day, end: Day)
    requires forall j :: 0 <= j < |countries| ==> ',' !in countries[j] && '\n' !in countries[j]
    requires forall j, d :: 0 <= j < |countries| && start <= d < end && env.countryHolidays(countries[j])(d).Some? ==>
      '\n' !in env.countryHolidays(countries[j])(d).value
    requires forall d :: start <= d < end ==> ',' !in env.format(d) && '\n' !in env.format(d)
    ensures Parse(Render(Table(env, flag, countries, start, end))) == Table(env, flag, countries, start, end)
  {
    var table := Table(env, flag, countries, start, end);
    var kept := HolidayDays(env, flag, countries, Days(start, end));
    TableRows(env, flag, countries, start, end);
    HeaderClean(countries);
    forall i | 1 <= i < |table|
      ensures forall j :: 0 <= j < |table[i]| ==> ',' !in table[i][j] && '\n' !in table[i][j]
    {
      assert kept[i - 1] in kept;
      RowClean(env, flag, countries, kept[i - 1]);
    }
    ParseRender(table);
  }

  lemma HeaderClean(countries: seq<string>)
    requires forall j :: 0 <= j < |countries| ==> ',' !in countries[j] && '\n' !in countries[j]
    ensures forall j :: 0 <= j < |HeaderFields(countries)| ==>
      ',' !in HeaderFields(countries)[j] && '\n' !in HeaderFields(countries)[j]
  {
    forall j | 1 <= j < |HeaderFields(countries)|
      ensures ',' !in HeaderFields(countries)[j] && '\n' !in HeaderFields(countries)[j]
    {
      assert HeaderFields(countries)[j] == countries[j - 1] + "_holidays";
    }
  }

  lemma RowClean(env: Env, flag: bool, countries: seq<string>, d: Day)
    requires forall j :: 0 <= j < |countries| && env.countryHolidays(countries[j])(d).Some? ==>
      '\n' !in env.countryHolidays(countries[j])(d).value
    requires ',' !in env.format(d) && '\n' !in env.format(d)
    ensures forall j :: 0 <= j < |RowFields(env, flag, countries, d)| ==>
      ',' !in RowFields(env, flag, countries, d)[j] && '\n' !in RowFields(env, flag, countries, d)[j]
  {
    var row := RowFields(env, flag, countries, d);
    forall j | 1 <= j < |row|
      ensures ',' !in row[j] && '\n' !in row[j]
    {
      var code := countries[j - 1];
      assert row[j] == Field(env, flag, code, d);
      FieldHasNoLineBreak(env, flag, code, d);
    }
  }

  // ---------------------------------------------------------------------------
  // get_holiday_data

  /** The calendars a run uses: one per configured country. */
  type Calendars = map<string, Day -> Option<string>>

  ghost predicate CalendarsFor(env: Env, countries: seq<string>, cal: Calendars)
  {
    forall j :: 0 <= j < |countries| ==> countries[j] in cal && cal[countries[j]] == env.countryHolidays(countries[j])
  }

  /** The calendar set-up of get_holiday_data: `holidays.country_holidays(code)`
      for each country in list order, stored under its code. The library
      raises on a code it does not know, so the first such code is reported
      and nothing else happens. */
  method BuildCalendars(env: Env, countries: seq<string>) returns (cal: Calendars, unknown: Option<string>)
    ensures unknown.None? <==> forall j :: 0 <= j < |countries| ==> env.supported(countries[j])
    ensures unknown.Some? ==>
      exists j :: 0 <= j < |countries| && countries[j] == unknown.value && !env.supported(unknown.value)
        && forall i :: 0 <= i < j ==> env.supported(countries[i])
    ensures unknown.None? ==> CalendarsFor(env, countries, cal)
  {
    cal := map[];
    var i := 0;
    while i < |countries|
      invariant 0 <= i <= |countries|
      invariant forall j :: 0 <= j < i ==> env.supported(countries[j])
      invariant CalendarsFor(env, countries[..i], cal)
    {
      var code := countries[i];
      if !env.supported(code) {
        return cal, Some(code);
      }
      cal := cal[code := env.countryHolidays(code)];
      i := i + 1;
    }
    assert countries[..i] == countries;
    unknown := None;
  }

  /** One day of the inner loop of get_holiday_data: looks each country up in
      its calendar, applies the Good Friday and Easter Sunday rules, stores the
      escaped name (or "") under the country's code, and sets the "exists" flag
      when some name is non-empty. */
  method ResolveDay(env: Env, cal: Calendars, flag: bool, countries: seq<string>, day: Day, easterDay: Day)
    returns (names: map<string, string>, anyHoliday: bool)
    requires CalendarsFor(env, countries, cal)
    requires easterDay == env.easter(env.year(day))
    ensures forall j :: 0 <= j < |countries| ==> countries[j] in names
    ensures Columns(countries, names) == Fields(env, flag, countries, day)
    ensures anyHoliday <==> HasHoliday(env, flag, countries, day)
  {
    anyHoliday := false;
    names := map[];
    var k := 0;
    while k < |countries|
      invariant 0 <= k <= |countries|
      invariant forall j :: 0 <= j < k ==>
        countries[j] in names && names[countries[j]] == Field(env, flag, countries[j], day)
      invariant anyHoliday <==> exists j :: 0 <= j < k && Field(env, flag, countries[j], day) != ""
    {
      var code := countries[k];
      var name := cal[code](day);
      if flag && IsOverrideTarget(code) && day == easterDay - 2 && name.None? {
        name := Some("Good Friday");
      }
      if flag && IsOverrideTarget(code) && easterDay == day && !NonEmpty(name) {
        name := Some("Easter Sunday");
      }
      assert name == Resolve(env, flag, code, day);
      if NonEmpty(name) {
        anyHoliday := true;
        names := names[code := Escape(name.value)];
      } else {
        names := names[code := ""];
      }
      k := k + 1;
    }
    assert Columns(countries, names) == Fields(env, flag, countries, day);
  }

  /** The stored names of the countries, in list order. */
  function Columns(countries: seq<string>, names: map<string, string>): seq<string>
    requires forall j :: 0 <= j < |countries| ==> countries[j] in names
  {
    seq(|countries|, j requires 0 <= j < |countries| => names[countries[j]])
  }

  /** The row-writing loop of get_holiday_data: the date, then "," and the
      stored name of each country in list order, then the line end. */
  method AppendRow(data: string, dateVal: string, countries: seq<string>, names: map<string, string>)
    returns (out: string)
    requires forall j :: 0 <= j < |countries| ==> countries[j] in names
    ensures out == data + Line([dateVal] + Columns(countries, names))
  {
    ghost var fields := Columns(countries, names);
    out := data + dateVal;
    var k := 0;
    while k < |countries|
      invariant 0 <= k <= |countries|
      invariant out == data + dateVal + Prefixed(fields[..k], ',')
    {
      assert fields[..k + 1][..k] == fields[..k];
      out := out + "," + names[countries[k]];
      k := k + 1;
    }
    assert fields[..|countries|] == fields;
    assert ([dateVal] + fields)[1..] == fields;
    out := out + "\n";
  }

  lemma TakeOneMore(days: seq<Day>, n: nat)
    requires n < |days|
    ensures days[..n + 1] == days[..n] + [days[n]]
  {
  }

  /** The text after the days `days` have been visited. */
  function TextAfter(env: Env, flag: bool, countries: seq<string>, days: seq<Day>): string
  {
    Render([HeaderFields(countries)] + Rows(env, flag, countries, HolidayDays(env, flag, countries, days)))
  }

  /** Visiting one more day adds that day's line to the text exactly when some
      country has a holiday on it. */
  lemma DayStep(env: Env, flag: bool, countries: seq<string>, days: seq<Day>, day: Day)
    ensures TextAfter(env, flag, countries, days + [day])
      == TextAfter(env, flag, countries, days)
        + if HasHoliday(env, flag, countries, day) then Line(RowFields(env, flag, countries, day)) else ""
  {
    var header := [HeaderFields(countries)];
    var before := HolidayDays(env, flag, countries, days);
    HolidayDaysSnoc(env, flag, countries, days, day);
    if HasHoliday(env, flag, countries, day) {
      var row := RowFields(env, flag, countries, day);
      assert header + Rows(env, flag, countries, before + [day]) == (header + Rows(env, flag, countries, before)) + [row] by {
        RowsSnoc(env, flag, countries, before, day);
      }
      RenderSnoc(header + Rows(env, flag, countries, before), row);
    } else {
      assert HolidayDays(env, flag, countries, days + [day]) == before;
    }
  }

  /** One pass of the day loop of get_holiday_data: computes the Easter day
      of the day's year and the formatted date, resolves every country's name
      and the "exists" flag, and appends the day's row only when the flag is set. */
  method AppendDay(env: Env, cal: Calendars, flag: bool, countries: seq<string>, day: Day, data: string)
    returns (out: string)
    requires CalendarsFor(env, countries, cal)
    ensures out == data + if HasHoliday(env, flag, countries, day) then Line(RowFields(env, flag, countries, day)) else ""
  {
    var easterDay := env.easter(env.year(day));
    var dateVal := env.format(day);
    var names, anyHoliday := ResolveDay(env, cal, flag, countries, day, easterDay);
    if anyHoliday {
      out := AppendRow(data, dateVal, countries, names);
    } else {
      out := data;
    }
  }

  /** The day loop of get_holiday_data: the days in order, each adding its
      row to the text exactly when some country has a holiday on it. */
  method AppendHolidayRows(env: Env, cal: Calendars, flag: bool, countries: seq<string>, days: seq<Day>, header: string)
    returns (data: string)
    requires CalendarsFor(env, countries, cal)
    requires header == Line(HeaderFields(countries))
    ensures data == TextAfter(env, flag, countries, days)
  {
    data := header;
    assert data == Render([HeaderFields(countries)]);
    assert data == TextAfter(env, flag, countries, []);
    var n := 0;
    while n < |days|
      invariant 0 <= n <= |days|
      invariant data == TextAfter(env, flag, countries, days[..n])
    {
      TakeOneMore(days, n);
      DayStep(env, flag, countries, days[..n], days[n]);
      data := AppendDay(env, cal, flag, countries, days[n], data);
      n := n + 1;
    }
    assert days[..n] == days;
  }

  /** `get_holiday_data(start, end, countries, flag)`, the flag on unless the
      caller turns it off: writes the header,
      builds one calendar per country (failing on the first one the library
      does not know), then runs the day loop over `date_range(start, end)`. */
  method GetHolidayData(env: Env, start: Day, end: Day, countries: seq<string>, flag: bool := true) returns (r: Outcome)
    ensures r.Unsupported? <==> exists j :: 0 <= j < |countries| && !env.supported(countries[j])
    ensures r.Unsupported? ==>
      exists j :: 0 <= j < |countries| && countries[j] == r.code && !env.supported(r.code)
        && forall i :: 0 <= i < j ==> env.supported(countries[i])
    ensures r.Ok? ==> r.text == Render(Table(env, flag, countries, start, end))
  {
    var data := CsvHeader(countries);
    var cal, unknown := BuildCalendars(env, countries);
    if unknown.Some? {
      return Unsupported(unknown.value);
    }
    var days := DateRange(start, end);
    data := AppendHolidayRows(env, cal, flag, countries, days, data);
    r := Ok(data);
  }

  // ---------------------------------------------------------------------------
  // Worked examples

  lemma UsHeader()
    ensures HeaderFields(["US"]) == ["date", "US_holidays"]
  {
    assert ["US"][0] + "_holidays" == "US_holidays";
  }

  /** With one country, the row's columns are that country's field, and the
      day has a holiday exactly when that field is not empty. */
  lemma OneCountry(env: Env, flag: bool, code: string, d: Day)
    ensures Fields(env, flag, [code], d) == [Field(env, flag, code, d)]
    ensures HasHoliday(env, flag, [code], d) <==> Field(env, flag, code, d) != ""
  {
    assert [code][0] == code;
  }

  lemma HolidayDaysSnoc(env: Env, flag: bool, countries: seq<string>, days: seq<Day>, d: Day)
    ensures HolidayDays(env, flag, countries, days + [d])
      == HolidayDays(env, flag, countries, days) + if HasHoliday(env, flag, countries, d) then [d] else []
  {
    assert (days + [d])[..|days|] == days;
  }

  /** A range of one day gives the header and that day's row when some
      country has a holiday on it. */
  lemma OneDayTable(env: Env, flag: bool, countries: seq<string>, d: Day)
    requires HasHoliday(env, flag, countries, d)
    ensures Table(env, flag, countries, d, d + 1) == [HeaderFields(countries), RowFields(env, flag, countries, d)]
  {
    assert Days(d, d + 1) == [] + [d];
    HolidayDaysSnoc(env, flag, countries, [], d);
    RowsSnoc(env, flag, countries, [], d);
  }

  /** A range of three days whose middle day has no holiday anywhere gives the
      header and the rows of the first and the last day. */
  lemma ThreeDayTable(env: Env, flag: bool, countries: seq<string>, d: Day)
    requires HasHoliday(env, flag, countries, d)
    requires !HasHoliday(env, flag, countries, d + 1)
    requires HasHoliday(env, flag, countries, d + 2)
    ensures Table(env, flag, countries, d, d + 3)
      == [HeaderFields(countries), RowFields(env, flag, countries, d), RowFields(env, flag, countries, d + 2)]
  {
    var one, two, three := Days(d, d + 1), Days(d, d + 2), Days(d, d + 3);
    assert one == [] + [d] && two == one + [d + 1] && three == two + [d + 2];
    HolidayDaysSnoc(env, flag, countries, [], d);
    HolidayDaysSnoc(env, flag, countries, one, d + 1);
    HolidayDaysSnoc(env, flag, countries, two, d + 2);
    RowsSnoc(env, flag, countries, [], d);
    RowsSnoc(env, flag, countries, [d], d + 2);
  }

  /** The US row of a day that the US calendar names "New Year's Day": the
      overrides never replace a calendar name, whatever day Easter falls on. */
  lemma NewYearRow(env: Env, d: Day)
    requires env.countryHolidays("US")(d) == Some("New Year's Day")
    ensures RowFields(env, true, ["US"], d) == [env.format(d), "New Year's Day"]
    ensures HasHoliday(env, true, ["US"], d)
  {
    assert Field(env, true, "US", d) == "New Year's Day";
    OneCountry(env, true, "US", d);
  }

  /** A range of one day on which the US calendar names "New Year's Day"
      gives the header and one row. */
  lemma NewYearExample(env: Env, d: Day)
    requires env.countryHolidays("US")(d) == Some("New Year's Day")
    ensures Table(env, true, ["US"], d, d + 1) == [["date", "US_holidays"], [env.format(d), "New Year's Day"]]
  {
    NewYearRow(env, d);
    OneDayTable(env, true, ["US"], d);
    UsHeader();
  }

  /** The same one-day range, as text. */
  lemma NewYearText(env: Env, d: Day)
    requires env.countryHolidays("US")(d) == Some("New Year's Day")
    ensures Render(Table(env, true, ["US"], d, d + 1)) == "date,US_holidays\n" + env.format(d) + ",New Year's Day\n"
  {
    NewYearExample(env, d);
    TwoByTwo("date", "US_holidays", env.format(d), "New Year's Day");
    assert "date" + "," + "US_holidays" + "\n" == "date,US_holidays\n";
    assert "," + "New Year's Day" + "\n" == ",New Year's Day\n";
  }

  /** The US rows of Good Friday, Holy Saturday and Easter of one year when the
      US calendar has no entry on any of them. */
  lemma EasterWeekendRows(env: Env, e: Day)
    requires env.year(e - 2) == env.year(e - 1) == env.year(e) && env.easter(env.year(e)) == e
    requires forall d :: e - 2 <= d <= e ==> env.countryHolidays("US")(d).None?
    ensures RowFields(env, true, ["US"], e - 2) == [env.format(e - 2), "Good Friday"]
    ensures RowFields(env, true, ["US"], e) == [env.format(e), "Easter Sunday"]
    ensures HasHoliday(env, true, ["US"], e - 2) && HasHoliday(env, true, ["US"], e)
    ensures !HasHoliday(env, true, ["US"], e - 1)
  {
    assert env.countryHolidays("US")(e - 2).None? && env.countryHolidays("US")(e - 1).None?
      && env.countryHolidays("US")(e).None?;
    assert Field(env, true, "US", e - 2) == "Good Friday";
    assert Field(env, true, "US", e - 1) == "";
    assert Field(env, true, "US", e) == "Easter Sunday";
    OneCountry(env, true, "US", e - 2);
    OneCountry(env, true, "US", e - 1);
    OneCountry(env, true, "US", e);
  }

  /** Over Good Friday, Holy Saturday and Easter of one year, with no US
      calendar entry on any of them, the rows are Good Friday and Easter
      Sunday, and Holy Saturday has no row. */
  lemma EasterWeekendExample(env: Env, e: Day)
    requires env.year(e - 2) == env.year(e - 1) == env.year(e) && env.easter(env.year(e)) == e
    requires forall d :: e - 2 <= d <= e ==> env.countryHolidays("US")(d).None?
    ensures Table(env, true, ["US"], e - 2, e + 1)
      == [["date", "US_holidays"], [env.format(e - 2), "Good Friday"], [env.format(e), "Easter Sunday"]]
  {
    EasterWeekendRows(env, e);
    ThreeDayTable(env, true, ["US"], e - 2);
    UsHeader();
  }
}
