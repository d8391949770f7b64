/** Calendar dates and timestamps as the controllers exchange them: the
    `Y-m-d` and `Y-m-d H:i:s` text forms, and the calendar day a timestamp
    falls on (what `whereDate`, `whereYear` and `whereMonth` compare). */
module Calendar {
  import opened Common

  datatype Date = Date(year: int, month: int, day: int)

  /** A timestamp to the second, in the application's time zone. */
  datatype DateTime = DateTime(date: Date, hour: int, minute: int, second: int)

  predicate IsLeapYear(y: int)
  {
    y % 4 == 0 && (y % 100 != 0 || y % 400 == 0)
  }

  function DaysInMonth(y: int, m: int): (n: int)
    requires 1 <= m <= 12
    ensures 28 <= n <= 31
    ensures m == 2 ==> (n == 29 <==> IsLeapYear(y))
  {
    if m == 2 then (if IsLeapYear(y) then 29 else 28)
    else if m == 4 || m == 6 || m == 9 || m == 11 then 30
    else 31
  }

  /** A day of the Gregorian calendar whose year has four digits. */
  predicate ValidDate(d: Date)
  {
    0 <= d.year <= 9999 && 1 <= d.month <= 12 && 1 <= d.day <= DaysInMonth(d.year, d.month)
  }

  predicate ValidDateTime(t: DateTime)
  {
    ValidDate(t.date) && 0 <= t.hour < 24 && 0 <= t.minute < 60 && 0 <= t.second < 60
  }

  /** The calendar day a timestamp falls on. */
  function DayOf(t: DateTime): Date
  {
    t.date
  }

  /** 00:00:00 of a day, as Carbon's `startOfDay`. */
  function StartOfDay(d: Date): (t: DateTime)
    ensures DayOf(t) == d
    ensures ValidDate(d) ==> ValidDateTime(t)
    ensures t.hour == 0 && t.minute == 0 && t.second == 0
  {
    DateTime(d, 0, 0, 0)
  }

  /** Chronological order: field by field, the year first. */
  predicate Earlier(a: DateTime, b: DateTime)
  {
    if a.date.year != b.date.year then a.date.year < b.date.year
    else if a.date.month != b.date.month then a.date.month < b.date.month
    else if a.date.day != b.date.day then a.date.day < b.date.day
    else if a.hour != b.hour then a.hour < b.hour
    else if a.minute != b.minute then a.minute < b.minute
    else a.second < b.second
  }

  /** "Not earlier" is a total preorder: any two timestamps compare, and
      the comparison chains. */
  lemma NotEarlierTotalTransitive(a: DateTime, b: DateTime, c: DateTime)
    ensures !Earlier(a, b) || !Earlier(b, a)
    ensures Earlier(a, b) || Earlier(b, a) || a == b
    ensures !Earlier(a, b) && !Earlier(b, c) ==> !Earlier(a, c)
  {
  }

  // ---------------------------------------------------------------------
  // Text forms

  /** `Y-m-d`. */
  function FormatDate(d: Date): (s: string)
    requires ValidDate(d)
  {
    PadDigits(d.year, 4) + "-" + PadDigits(d.month, 2) + "-" + PadDigits(d.day, 2)
  }

  /** `Y-m-d H:i:s`. */
  function FormatDateTime(t: DateTime): (s: string)
    requires ValidDateTime(t)
  {
    FormatDate(t.date) + " " + PadDigits(t.hour, 2) + ":" + PadDigits(t.minute, 2) + ":" + PadDigits(t.second, 2)
  }

  /** Reads a `Y-m-d` date; fails unless the text is exactly the canonical
      form of a real calendar day. */
  function ParseDate(s: string): (r: Option<Date>)
    ensures r.Some? ==> ValidDate(r.value)
  {
    if |s| == 10 && s[4] == '-' && s[7] == '-'
       && AllDigits(s[..4]) && AllDigits(s[5..7]) && AllDigits(s[8..])
    then
      var d := Date(DigitsValue(s[..4]), DigitsValue(s[5..7]), DigitsValue(s[8..]));
      if ValidDate(d) then Some(d) else None
    else None
  }

  /** `required|date`, read as a `Y-m-d` calendar day. */
  predicate IsRequiredDate(i: Input)
  {
    i.Text? && ParseDate(i.s).Some?
  }

  /** Laravel's `date_format:Y-m-d H:i:s` rule, which parses the text and
      accepts it only when formatting the parsed value gives the text back. */
  function ParseDateTime(s: string): (r: Option<DateTime>)
    ensures r.Some? ==> ValidDateTime(r.value)
  {
    if |s| == 19 && s[10] == ' ' && s[13] == ':' && s[16] == ':'
       && AllDigits(s[11..13]) && AllDigits(s[14..16]) && AllDigits(s[17..])
    then
      match ParseDate(s[..10])
      case None => None
      case Some(d) =>
        var t := DateTime(d, DigitsValue(s[11..13]), DigitsValue(s[14..16]), DigitsValue(s[17..]));
        if ValidDateTime(t) then Some(t) else None
    else None
  }

  lemma FormatDateShape(d: Date)
    requires ValidDate(d)
    ensures var s := FormatDate(d);
      |s| == 10 && s[4] == '-' && s[7] == '-'
      && s[..4] == PadDigits(d.year, 4) && s[5..7] == PadDigits(d.month, 2) && s[8..] == PadDigits(d.day, 2)
  {
  }

  lemma ParseDateShape(s: string)
    requires ParseDate(s).Some?
    ensures |s| == 10 && s[4] == '-' && s[7] == '-'
    ensures AllDigits(s[..4]) && AllDigits(s[5..7]) && AllDigits(s[8..])
    ensures ParseDate(s).value == Date(DigitsValue(s[..4]), DigitsValue(s[5..7]), DigitsValue(s[8..]))
  {
  }

  /** Every valid date is read back from its own text. */
  lemma ParseFormatDate(d: Date)
    requires ValidDate(d)
    ensures ParseDate(FormatDate(d)) == Some(d)
  {
    FormatDateShape(d);
    PadDigitsValue(d.year, 4);
    PadDigitsValue(d.month, 2);
    PadDigitsValue(d.day, 2);
  }

  /** Only canonical text is accepted: formatting what was read gives the
      text back. */
  lemma FormatParseDate(s: string)
    requires ParseDate(s).Some?
    ensures FormatDate(ParseDate(s).value) == s
  {
    var d := ParseDate(s).value;
    ParseDateShape(s);
    var y, m, dd := s[..4], s[5..7], s[8..];
    PadDigitsOfValue(y);
    PadDigitsOfValue(m);
    PadDigitsOfValue(dd);
    JoinDate(s, y, m, dd);
  }

  /** A `Y-m-d` text is its three fields joined by dashes. */
  lemma JoinDate(s: string, y: string, m: string, dd: string)
    requires |s| == 10 && s[4] == '-' && s[7] == '-'
    requires y == s[..4] && m == s[5..7] && dd == s[8..]
    ensures s == y + "-" + m + "-" + dd
  {
  }

  lemma FormatDateTimeShape(t: DateTime)
    requires ValidDateTime(t)
    ensures var s := FormatDateTime(t);
      |s| == 19 && s[10] == ' ' && s[13] == ':' && s[16] == ':'
      && s[..10] == FormatDate(t.date) && s[11..13] == PadDigits(t.hour, 2)
      && s[14..16] == PadDigits(t.minute, 2) && s[17..] == PadDigits(t.second, 2)
  {
  }

  /** Every valid timestamp passes `date_format:Y-m-d H:i:s` and is read back. */
  lemma ParseFormatDateTime(t: DateTime)
    requires ValidDateTime(t)
    ensures ParseDateTime(FormatDateTime(t)) == Some(t)
  {
    FormatDateTimeShape(t);
    ParseFormatDate(t.date);
    PadDigitsValue(t.hour, 2);
    PadDigitsValue(t.minute, 2);
    PadDigitsValue(t.second, 2);
  }

  /** Text that passes `date_format:Y-m-d H:i:s` is the canonical form of
      what it denotes. */
  lemma FormatParseDateTime(s: string)
    requires ParseDateTime(s).Some?
    ensures FormatDateTime(ParseDateTime(s).value) == s
  {
    var t := ParseDateTime(s).value;
    ParseDateTimeShape(s);
    var date, h, m, sec := s[..10], s[11..13], s[14..16], s[17..];
    FormatParseDate(date);
    PadDigitsOfValue(h);
    PadDigitsOfValue(m);
    PadDigitsOfValue(sec);
    JoinDateTime(s, date, h, m, sec);
  }

  lemma ParseDateTimeShape(s: string)
    requires ParseDateTime(s).Some?
    ensures |s| == 19 && s[10] == ' ' && s[13] == ':' && s[16] == ':'
    ensures AllDigits(s[11..13]) && AllDigits(s[14..16]) && AllDigits(s[17..])
    ensures ParseDate(s[..10]).Some?
    ensures ParseDateTime(s).value
      == DateTime(ParseDate(s[..10]).value, DigitsValue(s[11..13]), DigitsValue(s[14..16]), DigitsValue(s[17..]))
  {
  }

  /** A `Y-m-d H:i:s` text is its date and three time fields joined. */
  lemma JoinDateTime(s: string, date: string, h: string, m: string, sec: string)
    requires |s| == 19 && s[10] == ' ' && s[13] == ':' && s[16] == ':'
    requires date == s[..10] && h == s[11..13] && m == s[14..16] && sec == s[17..]
    ensures s == date + " " + h + ":" + m + ":" + sec
  {
  }
}
