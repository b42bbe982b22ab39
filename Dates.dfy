/** The Date Recognizer. app.py reads "<day>/<month abbreviation>" tokens
    against a fixed Portuguese month table (`months_map`, `is_valid_date`
    with the fixed year 2024, `is_today` with the clock's year); main.py
    reads numeric "dd/mm/yyyy" tokens (`is_valid_date`). Both end in
    `pd.to_datetime(..., format='%d/%m/%Y')`, whose fields follow the
    strptime patterns `%d` = 3[01]|[12]\d|0[1-9]|[1-9]| [1-9],
    `%m` = 1[0-2]|0[1-9]|[1-9] and `%Y` = \d\d\d\d. */
module Dates {
  import opened TextUtil
  import opened Cells

  datatype Date = Date(year: int, month: int, day: int)

  /** Gregorian leap years, as Python's calendar has them. */
  predicate IsLeapYear(y: int) {
    y % 4 == 0 && (y % 100 != 0 || y % 400 == 0)
  }

  function DaysInMonth(month: int, year: int): (n: int)
    requires 1 <= month <= 12
    ensures 28 <= n <= 31
  {
    if month == 2 then (if IsLeapYear(year) then 29 else 28)
    else if month == 4 || month == 6 || month == 9 || month == 11 then 30
    else 31
  }

  predicate IsCalendarDate(d: Date) {
    1 <= d.month <= 12 && 1 <= d.day <= DaysInMonth(d.month, d.year)
  }

  /** A month is never longer than in 2024, a leap year. */
  lemma DaysInMonthAtMostLeapYear(month: int, year: int)
    requires 1 <= month <= 12
    ensures DaysInMonth(month, year) <= DaysInMonth(month, 2024)
  {
  }

  /** Lexicographic order on dates. */
  predicate NotAfter(a: Date, b: Date) {
    a.year < b.year || (a.year == b.year && (a.month < b.month || (a.month == b.month && a.day <= b.day)))
  }

  /** The days a pandas Timestamp can hold at midnight: from 22 September
      1677 to 11 April 2262. `pd.to_datetime` raises OutOfBoundsDatetime,
      a ValueError, for any other day. */
  predicate InTimestampRange(d: Date) {
    NotAfter(Date(1677, 9, 22), d) && NotAfter(d, Date(2262, 4, 11))
  }

  /** `months_map`: lower-case Portuguese three-letter abbreviations. */
  const MonthsMap: map<string, int> := map[
    "jan" := 1, "fev" := 2, "mar" := 3, "abr" := 4, "mai" := 5, "jun" := 6,
    "jul" := 7, "ago" := 8, "set" := 9, "out" := 10, "nov" := 11, "dez" := 12]

  /** No month abbreviation contains the separator '/'. */
  lemma MonthNamesHaveNoSlash(abbrev: string)
    requires abbrev in MonthsMap
    ensures '/' !in abbrev
  {
    assert abbrev in ["jan", "fev", "mar", "abr", "mai", "jun", "jul", "ago", "set", "out", "nov", "dez"];
  }

  function TwoDigitValue(t: string): nat
    requires |t| == 2 && AllDigits(t)
  {
    10 * DigitValue(t[0]) + DigitValue(t[1])
  }

  /** The `%d` field: "1".."9", " 1".." 9" or "01".."31". */
  function DayField(t: string): (r: Option<int>)
    ensures r.Some? ==> 1 <= r.value <= 31
  {
    if |t| == 1 && '1' <= t[0] <= '9' then Some(DigitValue(t[0]))
    else if |t| == 2 && t[0] == ' ' && '1' <= t[1] <= '9' then Some(DigitValue(t[1]))
    else if |t| == 2 && AllDigits(t) && 1 <= TwoDigitValue(t) <= 31 then Some(TwoDigitValue(t))
    else None
  }

  /** The `%m` field: "1".."9" or "01".."12". */
  function MonthField(t: string): (r: Option<int>)
    ensures r.Some? ==> 1 <= r.value <= 12
  {
    if |t| == 1 && '1' <= t[0] <= '9' then Some(DigitValue(t[0]))
    else if |t| == 2 && AllDigits(t) && 1 <= TwoDigitValue(t) <= 12 then Some(TwoDigitValue(t))
    else None
  }

  /** The `%Y` field: exactly four digits. */
  function YearField(t: string): Option<int> {
    if |t| == 4 && AllDigits(t) then Some(100 * TwoDigitValue(t[..2]) + TwoDigitValue(t[2..]))
    else None
  }

  /** app.py's reading of "<day>/<month>" in a given year: split on '/',
      which must give exactly two parts; the month part must be a key of
      `months_map` exactly as written (no case folding); the day part must
      be a `%d` field naming a day of that month in that year. */
  function ReadDayMonth(s: string, year: int): (r: Option<Date>)
    ensures |Split(s, '/')| != 2 ==> r.None?
    ensures |Split(s, '/')| == 2 && Split(s, '/')[1] !in MonthsMap ==> r.None?
    ensures r.Some? ==> IsCalendarDate(r.value) && r.value.year == year
    ensures r.Some? ==> MonthsMap[Split(s, '/')[1]] == r.value.month && DayField(Split(s, '/')[0]) == Some(r.value.day)
  {
    var parts := Split(s, '/');
    if |parts| != 2 || parts[1] !in MonthsMap then None
    else
      var month := MonthsMap[parts[1]];
      match DayField(parts[0])
      case None => None
      case Some(day) => if day <= DaysInMonth(month, year) then Some(Date(year, month, day)) else None
  }

  /** app.py's `is_valid_date`: the token names a day of 2024, that is,
      it has exactly two '/'-separated parts, the second a key of
      `months_map` and the first a `%d` field no larger than that month's
      length in 2024. */
  predicate IsValidDate(s: string)
    ensures IsValidDate(s) <==>
      var parts := Split(s, '/');
      && |parts| == 2 && parts[1] in MonthsMap && DayField(parts[0]).Some?
      && DayField(parts[0]).value <= DaysInMonth(MonthsMap[parts[1]], 2024)
  {
    ReadDayMonth(s, 2024).Some?
  }

  /** app.py's `is_today`, with the clock's date as a parameter: the token,
      read in today's year, is today's date (and today lies where a pandas
      Timestamp can represent it). It holds exactly when today is a real
      date in that range, the abbreviation maps to today's month and the
      day field reads today's day. */
  predicate IsToday(s: string, today: Date)
    ensures IsToday(s, today) <==>
      var parts := Split(s, '/');
      && IsCalendarDate(today) && InTimestampRange(today)
      && |parts| == 2 && parts[1] in MonthsMap && MonthsMap[parts[1]] == today.month
      && DayField(parts[0]) == Some(today.day)
  {
    var r := ReadDayMonth(s, today.year);
    r.Some? && InTimestampRange(r.value) && r.value == today
  }

  /** Python's str() of a day of the month is a `%d` field for that day. */
  lemma DayFieldOfDecimal(day: nat)
    requires 1 <= day <= 31
    ensures DayField(NatToString(day)) == Some(day)
  {
    var t := NatToString(day);
    if day >= 10 {
      assert t == NatToString(day / 10) + [DigitChar(day % 10)];
      assert NatToString(day / 10) == [DigitChar(day / 10)];
      assert TwoDigitValue(t) == day;
    }
  }

  /** Writing a day and a month abbreviation as "<day>/<abbreviation>" and
      reading it back gives that day of that month. */
  lemma DayMonthRoundTrip(day: nat, abbrev: string, year: int)
    requires abbrev in MonthsMap
    requires 1 <= day <= DaysInMonth(MonthsMap[abbrev], year)
    ensures ReadDayMonth(NatToString(day) + "/" + abbrev, year) == Some(Date(year, MonthsMap[abbrev], day))
  {
    var t := NatToString(day);
    MonthNamesHaveNoSlash(abbrev);
    SplitAround(t, abbrev, '/');
    SplitNoSeparator(abbrev, '/');
    assert t + "/" + abbrev == t + ['/'] + abbrev;
    assert Split(t + "/" + abbrev, '/') == [t, abbrev];
    DayFieldOfDecimal(day);
  }

  /** is_today implies is_valid_date, because 2024 is a leap year. */
  lemma TodayIsValid(s: string, today: Date)
    requires IsToday(s, today)
    ensures IsValidDate(s)
  {
    var parts := Split(s, '/');
    DaysInMonthAtMostLeapYear(MonthsMap[parts[1]], today.year);
  }

  /** With a real date for today, is_today holds iff the month abbreviation
      maps to today's month and the day field reads today's day. */
  lemma TodayExactly(s: string, today: Date)
    requires IsCalendarDate(today) && InTimestampRange(today)
    ensures IsToday(s, today) <==>
      var parts := Split(s, '/');
      |parts| == 2 && parts[1] in MonthsMap && MonthsMap[parts[1]] == today.month
      && DayField(parts[0]) == Some(today.day)
  {
  }

  /** Splitting "<day>/<abbreviation>" gives the day and the abbreviation. */
  lemma SplitDayMonth(s: string, day: string, abbrev: string)
    requires s == day + "/" + abbrev && '/' !in day && '/' !in abbrev
    ensures Split(s, '/') == [day, abbrev]
  {
    assert s == day + ['/'] + abbrev;
    SplitAround(day, abbrev, '/');
    SplitNoSeparator(abbrev, '/');
  }

  /** 2024 is a leap year, so the 29th of February is a valid token. */
  lemma LeapDayIsValid(s: string)
    requires s == "29/fev"
    ensures IsValidDate(s)
  {
    SplitDayMonth(s, "29", "fev");
    assert DayField("29") == Some(29);
  }

  /** The month lookup is case-sensitive: "10/Jan" is not a date. */
  lemma CapitalisedMonthRejected(s: string)
    requires s == "10/Jan"
    ensures !IsValidDate(s)
  {
    SplitDayMonth(s, "10", "Jan");
    assert "Jan" !in MonthsMap;
  }

  /** The 31st of a 30-day month is rejected. */
  lemma DayOutOfMonthRejected(s: string)
    requires s == "31/abr"
    ensures !IsValidDate(s)
  {
    SplitDayMonth(s, "31", "abr");
    assert MonthsMap["abr"] == 4;
    assert DayField("31") == Some(31);
  }

  function Pad2(n: nat): (s: string)
    requires n < 100
    ensures |s| == 2 && AllDigits(s) && TwoDigitValue(s) == n
  {
    [DigitChar(n / 10), DigitChar(n % 10)]
  }

  function Pad4(n: nat): (s: string)
    requires n < 10000
    ensures |s| == 4 && AllDigits(s) && YearField(s) == Some(n)
  {
    var s := Pad2(n / 100) + Pad2(n % 100);
    assert s[..2] == Pad2(n / 100) && s[2..] == Pad2(n % 100);
    s
  }

  /** main.py's reading of "dd/mm/yyyy": three '/'-separated fields that are
      `%d`, `%m` and `%Y` fields and together a calendar date that a pandas
      Timestamp can hold. */
  function ReadNumericDate(s: string): (r: Option<Date>)
    ensures |Split(s, '/')| != 3 ==> r.None?
    ensures r.Some? ==> IsCalendarDate(r.value) && InTimestampRange(r.value)
    ensures r.Some? ==> DayField(Split(s, '/')[0]) == Some(r.value.day)
    ensures r.Some? ==> MonthField(Split(s, '/')[1]) == Some(r.value.month)
    ensures r.Some? ==> YearField(Split(s, '/')[2]) == Some(r.value.year)
  {
    var parts := Split(s, '/');
    if |parts| != 3 then None
    else
      match (DayField(parts[0]), MonthField(parts[1]), YearField(parts[2]))
      case (Some(d), Some(m), Some(y)) =>
        if d <= DaysInMonth(m, y) && InTimestampRange(Date(y, m, d)) then Some(Date(y, m, d)) else None
      case _ => None
  }

  /** Splitting "<day>/<month>/<year>" gives the three fields. */
  lemma SplitNumeric(s: string, day: string, month: string, year: string)
    requires s == day + "/" + month + "/" + year
    requires '/' !in day && '/' !in month && '/' !in year
    ensures Split(s, '/') == [day, month, year]
  {
    assert s == day + ['/'] + (month + ['/'] + year);
    SplitAround(day, month + ['/'] + year, '/');
    SplitAround(month, year, '/');
    SplitNoSeparator(year, '/');
  }

  /** "dd/mm/yyyy" written with zero padding reads back as the same date. */
  lemma NumericDateRoundTrip(d: Date)
    requires IsCalendarDate(d) && InTimestampRange(d)
    ensures ReadNumericDate(Pad2(d.day) + "/" + Pad2(d.month) + "/" + Pad4(d.year)) == Some(d)
  {
    var a, b, c := Pad2(d.day), Pad2(d.month), Pad4(d.year);
    assert '/' !in a && '/' !in b && '/' !in c;
    SplitNumeric(a + "/" + b + "/" + c, a, b, c);
    assert DayField(a) == Some(d.day);
    assert MonthField(b) == Some(d.month);
  }

  /** A well-formed token for a day a pandas Timestamp cannot hold is
      rejected. */
  lemma OutOfRangeDateRejected(s: string)
    requires s == "01/01/1600"
    ensures ReadNumericDate(s).None?
  {
    SplitNumeric(s, "01", "01", "1600");
    assert TwoDigitValue("01") == 1;
    assert DayField("01") == Some(1) && MonthField("01") == Some(1);
    assert YearField("1600") == Some(1600) by {
      assert "1600"[..2] == "16" && "1600"[2..] == "00";
      assert TwoDigitValue("16") == 16 && TwoDigitValue("00") == 0;
    }
    assert !InTimestampRange(Date(1600, 1, 1));
  }

  /** The strings pandas reads as "not a time" (`nat_strings`). */
  const NaTStrings: set<string> := {"NaT", "nat", "NAT", "nan", "NaN", "NAN"}

  /** The strings pandas reads as the current moment before it tries the
      format at all. */
  const NowStrings: set<string> := {"now", "today"}

  /** main.py's `is_valid_date` on a cell. `pd.to_datetime` returns NaT
      without raising for a missing cell (NaN), for the empty string and for
      the NaT spellings, and the current timestamp for "now" and "today",
      so these are accepted; any other text must read as "dd/mm/yyyy"; a
      number is rendered as text with no '/' and rejected. */
  predicate IsValidNumericDate(c: Cell)
    ensures c.Missing? ==> IsValidNumericDate(c)
    ensures c.Number? ==> !IsValidNumericDate(c)
    ensures c.Text? && (c.text == "" || c.text in NaTStrings || c.text in NowStrings) ==> IsValidNumericDate(c)
    ensures c.Text? && IsValidNumericDate(c) && c.text != "" && c.text !in NaTStrings && c.text !in NowStrings ==>
      var parts := Split(c.text, '/');
      && |parts| == 3 && DayField(parts[0]).Some? && MonthField(parts[1]).Some? && YearField(parts[2]).Some?
      && IsCalendarDate(Date(YearField(parts[2]).value, MonthField(parts[1]).value, DayField(parts[0]).value))
  {
    match c
    case Text(s) => s == "" || s in NaTStrings || s in NowStrings || ReadNumericDate(s).Some?
    case Missing => true
    case Number(_) => false
  }

  /** A date cell the PDF left blank, which main.py's `clean_cell` turns
      into the empty text, is accepted, and so is the text "nan". */
  lemma BlankAndNaTAccepted(c: Cell, d: Cell)
    requires c == Text("") && d == Text("nan")
    ensures IsValidNumericDate(c) && IsValidNumericDate(d)
    ensures ReadNumericDate(c.text).None? && ReadNumericDate(d.text).None?
  {
    assert Split(c.text, '/') == [""];
    SplitNoSeparator(d.text, '/');
  }

  /** "now" and "today" are accepted although neither reads as a date. */
  lemma NowAndTodayAccepted(c: Cell, d: Cell)
    requires c == Text("now") && d == Text("today")
    ensures IsValidNumericDate(c) && IsValidNumericDate(d)
    ensures ReadNumericDate(c.text).None? && ReadNumericDate(d.text).None?
  {
    SplitNoSeparator(c.text, '/');
    SplitNoSeparator(d.text, '/');
  }
}
