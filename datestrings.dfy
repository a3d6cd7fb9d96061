/**
 * The date strings the forms read and write: the `YYYY-MM-DD` value of a
 * date input, the host library's `new Date(y, m, d, h)` and
 * `new Date("YYYY-MM-DD")`, and `toISOString` (the Date Time String Format
 * of section 21.4.1.32 of ECMA-262, the extended calendar-date form of
 * ISO 8601 section 4.1.2.2). A date that cannot be built is `None`, the
 * case in which `toISOString` throws and the form submits nothing.
 */
module DateStrings {
  import opened Types
  import opened Calendar
  import opened Text

  /** The largest magnitude of a valid time value (ECMA-262 TimeClip). */
  const MaxTime: int := 8640000000000000

  function TimeClip(t: int): (r: Option<int>)
    ensures r.Some? <==> -MaxTime <= t <= MaxTime
    ensures r.Some? ==> r.value == t
  {
    if -MaxTime <= t <= MaxTime then Some(t) else None
  }

  /** A two-digit field: String(n).padStart(2, '0'). */
  function Pad2(n: nat): string
  {
    PadStart(NatString(n), 2)
  }

  // ------------------------------------------------ the new-entry date field

  /** The initial value of the date input: today's year, month and date, zero-padded. */
  function DefaultDateString(clock: int): string
  {
    var c := CivilOf(clock);
    IntString(c.year) + "-" + Pad2(c.month + 1) + "-" + Pad2(c.date)
  }

  /**
   * `date.split('-').map(Number)` destructured into year, month and day: a
   * missing piece is `undefined`, and any piece that is not a digit run is
   * NaN; either makes the date built from them invalid.
   */
  function DateFields(s: string): Option<(nat, nat, nat)>
  {
    var parts := Split(s, '-');
    var y := Number(parts[0]);
    var m := if |parts| > 1 then Number(parts[1]) else None;
    var d := if |parts| > 2 then Number(parts[2]) else None;
    if y.Some? && m.Some? && d.Some? then Some((y.value, m.value, d.value)) else None
  }

  /** The Date constructor reads a year from 0 to 99 as 1900 to 1999. */
  function FullYear(y: int): (r: int)
    ensures 0 <= y <= 99 ==> r == 1900 + y
    ensures !(0 <= y <= 99) ==> r == y
  {
    if 0 <= y <= 99 then 1900 + y else y
  }

  /** `new Date(year, month, day, hour, 0, 0)` in the fixed zone, month counted from 0. */
  function LocalDate(year: int, month: int, day: int, hour: int): Option<int>
  {
    TimeClip(MakeDate(MakeDay(FullYear(year), month, day), MakeTime(hour, 0, 0, 0)))
  }

  /** The time value a new entry gets: local noon of the day named by the date field. */
  function NoonOf(dateText: string): Option<int>
  {
    match DateFields(dateText)
    case None => None
    case Some((y, m, d)) => LocalDate(y, m - 1, d, 12)
  }

  /** Digit runs hold no separator. */
  lemma DigitsLackChar(s: string, c: char)
    requires AllDigits(s) && !IsDigit(c)
    ensures c !in s
  {
  }

  /** A padded field is a digit run of the number's value. */
  lemma Pad2Value(n: nat)
    ensures AllDigits(Pad2(n)) && DigitsValue(Pad2(n)) == n
    ensures n < 100 ==> |Pad2(n)| == 2
  {
    NatStringValue(n);
    PadStartValue(NatString(n), 2);
    NatStringLength(n);
  }

  /** Every day from 1 January 1970 on lies in year 1970 or later. */
  lemma YearAfterEpoch(n: int)
    requires n >= 0
    ensures YearOfDay(n) >= 1970
  {
    var r := YearOfDay(n);
    if r + 1 < 1970 {
      DayFromYearMonotone(r + 1, 1970);
    }
  }

  /** Three digit runs joined by dashes split back into those three runs. */
  lemma SplitThree(a: string, b: string, c: string)
    requires AllDigits(a) && AllDigits(b) && AllDigits(c)
    ensures Split(a + "-" + b + "-" + c, '-') == [a, b, c]
  {
    DigitsLackChar(a, '-');
    DigitsLackChar(b, '-');
    DigitsLackChar(c, '-');
    assert a + "-" + b + "-" + c == a + ['-'] + (b + ['-'] + c);
    SplitFirst(a, '-', b + ['-'] + c);
    SplitFirst(b, '-', c);
    SplitNone(c, '-');
  }

  /**
   * From 1970 to the end of the time-value range, the default date string
   * splits back into today's year, month and date, and the entry built from
   * it is that same day at 12:00.
   */
  lemma DefaultDateRoundTrip(clock: int)
    requires 0 <= Day(clock) < 100000000
    ensures DateFields(DefaultDateString(clock))
         == Some((YearOf(clock), MonthOf(clock) + 1, DateOf(clock)))
    ensures NoonOf(DefaultDateString(clock)) == Some(MakeDate(Day(clock), 12 * MsPerHour))
    ensures CivilOf(MakeDate(Day(clock), 12 * MsPerHour)) == CivilOf(clock)
  {
    DefaultDateFields(clock);
    var c := CivilOf(clock);
    hide CivilOfDay;
    hide DefaultDateString;
    hide DateFields;
    assert MakeDay(FullYear(c.year), c.month + 1 - 1, c.date) == Day(clock);
    DayOfMakeDate(Day(clock), 12 * MsPerHour);
  }

  /** The default date string from 1970 on reads back as today's fields. */
  lemma DefaultDateFields(clock: int)
    requires 0 <= Day(clock)
    ensures YearOf(clock) >= 1970
    ensures DateFields(DefaultDateString(clock))
         == Some((YearOf(clock), MonthOf(clock) + 1, DateOf(clock)))
  {
    var c := CivilOf(clock);
    YearAfterEpoch(Day(clock));
    assert c.year >= 1970 && ValidCivil(c);
    hide CivilOfDay;
    assert DefaultDateString(clock) == IntString(c.year) + "-" + Pad2(c.month + 1) + "-" + Pad2(c.date);
    FieldsOfCivil(c);
  }

  /** The fields of a date from year 0 on, written with dashes, read back as they were. */
  lemma FieldsOfCivil(c: Civil)
    requires ValidCivil(c) && c.year >= 0
    ensures DateFields(IntString(c.year) + "-" + Pad2(c.month + 1) + "-" + Pad2(c.date))
         == Some((c.year, c.month + 1, c.date))
  {
    NatStringValue(c.year);
    Pad2Value(c.month + 1);
    Pad2Value(c.date);
    DateFieldsOfThree(NatString(c.year), Pad2(c.month + 1), Pad2(c.date));
  }

  /** Three digit runs joined by dashes read back as their three values. */
  lemma DateFieldsOfThree(a: string, b: string, c: string)
    requires AllDigits(a) && AllDigits(b) && AllDigits(c)
    ensures DateFields(a + "-" + b + "-" + c) == Some((DigitsValue(a), DigitsValue(b), DigitsValue(c)))
  {
    SplitThree(a, b, c);
    hide Split;
  }

  // ------------------------------------------------------------ toISOString

  /** The year of an ISO string: four digits, or a sign and six digits outside 0..9999. */
  function IsoYear(y: int): string
  {
    if 0 <= y <= 9999 then PadStart(NatString(y), 4)
    else if y < 0 then "-" + PadStart(NatString(-y), 6)
    else "+" + PadStart(NatString(y), 6)
  }

  /** The calendar-date part of `toISOString`: YYYY-MM-DD. */
  function IsoDate(t: int): string
  {
    var c := CivilOf(t);
    IsoYear(c.year) + "-" + Pad2(c.month + 1) + "-" + Pad2(c.date)
  }

  /** Date.prototype.toISOString of a valid time value, in the fixed zone. */
  function IsoString(t: int): string
  {
    IsoDate(t) + "T" + IsoTime(t)
  }

  /** The time part of `toISOString`: HH:mm:ss.sssZ. */
  function IsoTime(t: int): string
  {
    var ms := TimeWithinDay(t);
    Pad2(ms / MsPerHour) + ":" + Pad2(ms / MsPerMinute % 60) + ":"
      + Pad2(ms / MsPerSecond % 60) + "." + PadStart(NatString(ms % 1000), 3) + "Z"
  }

  /** `date.split('T')[0]`: the prefix a form shows for a stored date. */
  function DatePrefix(t: int): string
  {
    Split(IsoString(t), 'T')[0]
  }

  /** The year field of an ISO string has no 'T'. */
  lemma IsoYearLacksT(y: int)
    ensures 'T' !in IsoYear(y)
  {
    var n: nat := if y < 0 then -y else y;
    var width: nat := if 0 <= y <= 9999 then 4 else 6;
    var digits := PadStart(NatString(n), width);
    PadStartValue(NatString(n), width);
    DigitsLackChar(digits, 'T');
    hide PadStart;
    assert IsoYear(y) == digits || IsoYear(y) == "-" + digits || IsoYear(y) == "+" + digits;
  }

  /** The date part of an ISO string has no 'T'. */
  lemma IsoDateLacksT(t: int)
    ensures 'T' !in IsoDate(t)
  {
    hide CivilOfDay;
    hide PadStart;
    hide NatString;
    var c := CivilOf(t);
    IsoYearLacksT(c.year);
    Pad2Value(c.month + 1);
    Pad2Value(c.date);
    DigitsLackChar(Pad2(c.month + 1), 'T');
    DigitsLackChar(Pad2(c.date), 'T');
    hide IsoYear;
    hide Pad2;
    assert IsoDate(t) == IsoYear(c.year) + "-" + Pad2(c.month + 1) + "-" + Pad2(c.date);
  }

  /** The prefix before 'T' is exactly the calendar date of the stored value. */
  lemma DatePrefixIsIsoDate(t: int)
    ensures DatePrefix(t) == IsoDate(t)
  {
    IsoDateLacksT(t);
    hide IsoDate;
    hide IsoTime;
    assert IsoString(t) == IsoDate(t) + ['T'] + IsoTime(t);
    FirstPiece(IsoDate(t), 'T', IsoTime(t));
  }

  // ------------------------------------------------------ new Date("YYYY-MM-DD")

  /**
   * The fields of a date-only string in the Date Time String Format, read as
   * UTC midnight: a month from 01 to 12 and a day from 01 to 31 (a day past
   * the month's end rolls into the next month, as MakeDay does).
   */
  function DateFromFields(y: int, m: int, d: int): (r: Option<int>)
    ensures r.Some? ==> 1 <= m <= 12 && 1 <= d <= 31
  {
    if 1 <= m <= 12 && 1 <= d <= 31 then TimeClip(MakeDate(MakeDay(y, m - 1, d), 0)) else None
  }

  /**
   * `new Date(s)` for the date-only forms YYYY-MM-DD and ±YYYYYY-MM-DD; any
   * other string, and the year -000000, give an invalid date.
   */
  function ParseDateOnly(s: string): Option<int>
  {
    if |s| == 10 && AllDigits(s[..4]) && s[4] == '-' && AllDigits(s[5..7]) && s[7] == '-'
       && AllDigits(s[8..])
    then DateFromFields(DigitsValue(s[..4]), DigitsValue(s[5..7]), DigitsValue(s[8..]))
    else if |s| == 13 && (s[0] == '+' || s[0] == '-') && AllDigits(s[1..7]) && s[7] == '-'
       && AllDigits(s[8..10]) && s[10] == '-' && AllDigits(s[11..])
    then
      var magnitude: int := DigitsValue(s[1..7]);
      if s[0] == '-' && magnitude == 0 then None
      else DateFromFields(if s[0] == '-' then -magnitude else magnitude,
                          DigitsValue(s[8..10]), DigitsValue(s[11..]))
    else None
  }

  /** A valid time value's midnight is a valid time value too. */
  lemma MidnightInRange(t: int)
    requires -MaxTime <= t <= MaxTime
    ensures -MaxTime <= MakeDate(Day(t), 0) <= t
  {
    var r := TimeWithinDay(t);
    assert Day(t) * MsPerDay > -MaxTime - MsPerDay;
  }

  /**
   * For a valid time value in years 0 to 9999, the calendar date that
   * `toISOString` writes parses back as midnight UTC of the same day, and
   * that midnight writes the same calendar date again.
   */
  lemma IsoDateRoundTrip(t: int)
    requires -MaxTime <= t <= MaxTime
    requires 0 <= YearOf(t) <= 9999
    ensures ParseDateOnly(IsoDate(t)) == Some(MakeDate(Day(t), 0))
    ensures IsoDate(MakeDate(Day(t), 0)) == IsoDate(t)
  {
    var c := CivilOf(t);
    IsoDateFields(c);
    assert IsoDate(t) == IsoYear(c.year) + "-" + Pad2(c.month + 1) + "-" + Pad2(c.date);
    assert MakeDay(c.year, c.month + 1 - 1, c.date) == Day(t);
    MidnightInRange(t);
    DayOfMakeDate(Day(t), 0);
  }

  /** The written fields of a date in years 0 to 9999 read back as its year, month and day. */
  lemma IsoDateFields(c: Civil)
    requires ValidCivil(c) && 0 <= c.year <= 9999
    ensures ParseDateOnly(IsoYear(c.year) + "-" + Pad2(c.month + 1) + "-" + Pad2(c.date))
         == DateFromFields(c.year, c.month + 1, c.date)
  {
    var ys := PadStart(NatString(c.year), 4);
    NatStringBelow(c.year, 4);
    NatStringValue(c.year);
    PadStartValue(NatString(c.year), 4);
    Pad2Value(c.month + 1);
    Pad2Value(c.date);
    ParseShortForm(ys, Pad2(c.month + 1), Pad2(c.date));
  }

  /** A four-digit year, two-digit month and two-digit day joined by dashes parse field by field. */
  lemma ParseShortForm(y: string, m: string, d: string)
    requires AllDigits(y) && AllDigits(m) && AllDigits(d)
    requires |y| == 4 && |m| == 2 && |d| == 2
    ensures ParseDateOnly(y + "-" + m + "-" + d)
         == DateFromFields(DigitsValue(y), DigitsValue(m), DigitsValue(d))
  {
    var s := y + "-" + m + "-" + d;
    assert |s| == 10;
    assert s[..4] == y;
    assert s[4] == '-' && s[7] == '-';
    assert s[5..7] == m;
    assert s[8..] == d;
    hide AllDigits;
    hide DigitsValue;
    hide DateFromFields;
  }

  /**
   * A date field left as shown keeps its value through a submission: the
   * stored prefix parses, and the new value shows the same prefix.
   */
  lemma DatePrefixKept(t: int)
    requires -MaxTime <= t <= MaxTime
    requires 0 <= YearOf(t) <= 9999
    ensures ParseDateOnly(DatePrefix(t)) == Some(MakeDate(Day(t), 0))
    ensures DatePrefix(MakeDate(Day(t), 0)) == DatePrefix(t)
  {
    DatePrefixIsIsoDate(t);
    DatePrefixIsIsoDate(MakeDate(Day(t), 0));
    IsoDateRoundTrip(t);
  }
}
