/**
 * Calendar arithmetic of the host date library: time values are integers
 * counting milliseconds from the epoch in one fixed zone (no daylight saving,
 * local time equals UTC), and the day/year/month/date decomposition and the
 * MakeDay/MakeDate/MakeTime operations follow section 21.4.1 of ECMA-262
 * (proleptic Gregorian calendar, months numbered 0..11, dates 1..31, an
 * out-of-range month or date carried forward, never clamped).
 */
module Calendar {

  const MsPerDay: int := 86400000
  const MsPerHour: int := 3600000
  const MsPerMinute: int := 60000
  const MsPerSecond: int := 1000

  /** Day(t): the number of the day holding time value t (floor division). */
  function Day(t: int): int
  {
    t / MsPerDay
  }

  /** TimeWithinDay(t): the milliseconds elapsed since that day's midnight. */
  function TimeWithinDay(t: int): (r: int)
    ensures 0 <= r < MsPerDay
    ensures t == Day(t) * MsPerDay + r
  {
    t % MsPerDay
  }

  function MakeTime(hour: int, min: int, sec: int, ms: int): int
  {
    hour * MsPerHour + min * MsPerMinute + sec * MsPerSecond + ms
  }

  function MakeDate(day: int, time: int): int
  {
    day * MsPerDay + time
  }

  /** A time value taken apart into its day and its time of day gives that day back. */
  lemma DayOfMakeDate(day: int, time: int)
    requires 0 <= time < MsPerDay
    ensures Day(MakeDate(day, time)) == day
    ensures TimeWithinDay(MakeDate(day, time)) == time
  {
  }

  predicate InLeapYear(year: int)
  {
    (year % 4 == 0 && year % 100 != 0) || year % 400 == 0
  }

  function DaysInYear(year: int): int
  {
    if InLeapYear(year) then 366 else 365
  }

  /**
   * The number of the day on which `year` begins: the lengths of the years
   * between 1970 and `year`, counted forwards or backwards. It agrees with
   * the closed form of ECMA-262 DayFromYear (lemma DayFromYearClosedForm).
   */
  function DayFromYear(year: int): int
    decreases if year < 1970 then 1970 - year else year - 1970
  {
    if year == 1970 then 0
    else if year > 1970 then DayFromYear(year - 1) + DaysInYear(year - 1)
    else DayFromYear(year + 1) - DaysInYear(year)
  }

  /** Consecutive years are DaysInYear apart. */
  lemma DayFromYearStep(year: int)
    ensures DayFromYear(year + 1) == DayFromYear(year) + DaysInYear(year)
  {
  }

  /** Moving past a multiple of 4 adds one to the count of leap-year candidates. */
  lemma Div4Step(year: int)
    ensures (year - 1968) / 4 == (year - 1969) / 4 + (if year % 4 == 0 then 1 else 0)
  {
    var q := year / 4;
    var r := year % 4;
    assert year - 1968 == 4 * (q - 492) + r;
    if r == 0 {
      assert year - 1969 == 4 * (q - 493) + 3;
    } else {
      assert year - 1969 == 4 * (q - 492) + (r - 1);
    }
  }

  lemma Div100Step(year: int)
    ensures (year - 1900) / 100 == (year - 1901) / 100 + (if year % 100 == 0 then 1 else 0)
  {
    var q := year / 100;
    var r := year % 100;
    assert year - 1900 == 100 * (q - 19) + r;
    if r == 0 {
      assert year - 1901 == 100 * (q - 20) + 99;
    } else {
      assert year - 1901 == 100 * (q - 19) + (r - 1);
    }
  }

  lemma Div400Step(year: int)
    ensures (year - 1600) / 400 == (year - 1601) / 400 + (if year % 400 == 0 then 1 else 0)
  {
    var q := year / 400;
    var r := year % 400;
    assert year - 1600 == 400 * (q - 4) + r;
    if r == 0 {
      assert year - 1601 == 400 * (q - 5) + 399;
    } else {
      assert year - 1601 == 400 * (q - 4) + (r - 1);
    }
  }

  /** A multiple of 400 is a multiple of 100, and a multiple of 100 one of 4. */
  lemma LeapDivisors(year: int)
    ensures year % 400 == 0 ==> year % 100 == 0
    ensures year % 100 == 0 ==> year % 4 == 0
  {
    if year % 400 == 0 {
      var k := year / 400;
      assert year == 400 * k;
      assert year == 100 * (4 * k) + 0;
    }
    if year % 100 == 0 {
      var k := year / 100;
      assert year == 100 * k;
      assert year == 4 * (25 * k) + 0;
    }
  }

  /** ECMA-262's closed form of DayFromYear. */
  function DayFromYearFormula(year: int): int
  {
    365 * (year - 1970) + (year - 1969) / 4 - (year - 1901) / 100 + (year - 1601) / 400
  }

  lemma DayFromYearFormulaStep(year: int)
    ensures DayFromYearFormula(year + 1) == DayFromYearFormula(year) + DaysInYear(year)
  {
    Div4Step(year);
    Div100Step(year);
    Div400Step(year);
    LeapDivisors(year);
  }

  /** The year-by-year count equals ECMA-262's closed form for every year. */
  lemma {:induction false} DayFromYearClosedForm(year: int)
    ensures DayFromYear(year) == DayFromYearFormula(year)
    decreases if year < 1970 then 1970 - year else year - 1970
  {
    if year > 1970 {
      DayFromYearClosedForm(year - 1);
      DayFromYearFormulaStep(year - 1);
    } else if year < 1970 {
      DayFromYearClosedForm(year + 1);
      DayFromYearFormulaStep(year);
    }
  }

  lemma {:induction false} DayFromYearMonotone(y1: int, y2: int)
    requires y1 < y2
    ensures DayFromYear(y1) + 365 <= DayFromYear(y2)
    decreases y2 - y1
  {
    DayFromYearStep(y1);
    if y1 + 1 < y2 {
      DayFromYearMonotone(y1 + 1, y2);
    }
  }

  /** The year holding day n, searched upwards from a year that starts no later than n. */
  function YearFrom(n: int, year: int): (r: int)
    requires DayFromYear(year) <= n
    ensures DayFromYear(r) <= n < DayFromYear(r + 1)
    decreases n - DayFromYear(year)
  {
    DayFromYearStep(year);
    if n < DayFromYear(year + 1) then year else YearFrom(n, year + 1)
  }

  /** The year holding day n, searched downwards from a year that ends after n. */
  function YearBelow(n: int, year: int): (r: int)
    requires n < DayFromYear(year + 1)
    ensures DayFromYear(r) <= n < DayFromYear(r + 1)
    decreases DayFromYear(year + 1) - n
  {
    DayFromYearStep(year);
    if DayFromYear(year) <= n then year else YearBelow(n, year - 1)
  }

  /** ECMA-262 YearFromTime, on day numbers. */
  function YearOfDay(n: int): (r: int)
    ensures DayFromYear(r) <= n < DayFromYear(r + 1)
  {
    if n >= 0 then YearFrom(n, 1970) else YearBelow(n, 1969)
  }

  /** Only one year contains a given day. */
  lemma YearUnique(n: int, y1: int, y2: int)
    requires DayFromYear(y1) <= n < DayFromYear(y1 + 1)
    requires DayFromYear(y2) <= n < DayFromYear(y2 + 1)
    ensures y1 == y2
  {
    if y1 < y2 {
      if y1 + 1 < y2 { DayFromYearMonotone(y1 + 1, y2); }
    } else if y2 < y1 {
      if y2 + 1 < y1 { DayFromYearMonotone(y2 + 1, y1); }
    }
  }

  /** Days in the months before month m (0-based) of a year, m in 0..12. */
  function MonthStart(m: int, leap: bool): (r: int)
    requires 0 <= m <= 12
    ensures 0 <= r <= 366
  {
    var base :=
      if m == 0 then 0 else if m == 1 then 31 else if m == 2 then 59
      else if m == 3 then 90 else if m == 4 then 120 else if m == 5 then 151
      else if m == 6 then 181 else if m == 7 then 212 else if m == 8 then 243
      else if m == 9 then 273 else if m == 10 then 304 else if m == 11 then 334
      else 365;
    base + (if leap && m >= 2 then 1 else 0)
  }

  function DaysInMonth(year: int, month: int): (r: int)
    requires 0 <= month < 12
    ensures 28 <= r <= 31
    ensures month == 1 ==> r == (if InLeapYear(year) then 29 else 28)
    ensures month in {3, 5, 8, 10} ==> r == 30
    ensures month in {0, 2, 4, 6, 7, 9, 11} ==> r == 31
  {
    MonthStart(month + 1, InLeapYear(year)) - MonthStart(month, InLeapYear(year))
  }

  lemma MonthStartEnd(year: int)
    ensures MonthStart(12, InLeapYear(year)) == DaysInYear(year)
  {
  }

  lemma MonthStartMonotone(m1: int, m2: int, leap: bool)
    requires 0 <= m1 < m2 <= 12
    ensures MonthStart(m1, leap) + 28 <= MonthStart(m2, leap)
  {
  }

  /** The month (0-based) holding day `d` of a year, searched upwards from month m. */
  function MonthFind(d: int, leap: bool, m: int): (r: int)
    requires 0 <= m < 12 && MonthStart(m, leap) <= d < MonthStart(12, leap)
    ensures m <= r < 12 && MonthStart(r, leap) <= d < MonthStart(r + 1, leap)
    decreases 12 - m
  {
    if d < MonthStart(m + 1, leap) then m else MonthFind(d, leap, m + 1)
  }

  /** A calendar date in ECMA-262 numbering: month 0..11, date 1..31. */
  datatype Civil = Civil(year: int, month: int, date: int)

  predicate ValidCivil(c: Civil)
  {
    0 <= c.month < 12 && 1 <= c.date <= DaysInMonth(c.year, c.month)
  }

  /**
   * ECMA-262 MakeDay: the month is normalised into the year by floor
   * division, and the date is added as a day count, so an out-of-range
   * month or date rolls over into the following (or preceding) ones.
   */
  function MakeDay(year: int, month: int, date: int): int
  {
    var ym := year + month / 12;
    var mn := month % 12;
    DayFromYear(ym) + MonthStart(mn, InLeapYear(ym)) + date - 1
  }

  /** The month and date of the day `d` (counted from 0) of a year. */
  function CivilInYear(year: int, d: int): (c: Civil)
    requires 0 <= d < DaysInYear(year)
    ensures c.year == year && ValidCivil(c)
    ensures MonthStart(c.month, InLeapYear(year)) + c.date - 1 == d
  {
    var leap := InLeapYear(year);
    MonthStartEnd(year);
    var m := MonthFind(d, leap, 0);
    Civil(year, m, d - MonthStart(m, leap) + 1)
  }

  /** ECMA-262 YearFromTime / MonthFromTime / DateFromTime on a day number. */
  function CivilOfDay(n: int): (c: Civil)
    ensures ValidCivil(c)
    ensures MakeDay(c.year, c.month, c.date) == n
  {
    var y := YearOfDay(n);
    DayFromYearStep(y);
    var c := CivilInYear(y, n - DayFromYear(y));
    assert y + c.month / 12 == y && c.month % 12 == c.month;
    c
  }

  /** Only one month of a year contains a given day of that year. */
  lemma MonthUnique(d: int, leap: bool, m1: int, m2: int)
    requires 0 <= m1 < 12 && MonthStart(m1, leap) <= d < MonthStart(m1 + 1, leap)
    requires 0 <= m2 < 12 && MonthStart(m2, leap) <= d < MonthStart(m2 + 1, leap)
    ensures m1 == m2
  {
    if m1 + 1 < m2 {
      MonthStartMonotone(m1 + 1, m2, leap);
    } else if m2 + 1 < m1 {
      MonthStartMonotone(m2 + 1, m1, leap);
    }
  }

  lemma YearOfDayIs(n: int, year: int)
    requires DayFromYear(year) <= n < DayFromYear(year + 1)
    ensures YearOfDay(n) == year
  {
    var r := YearOfDay(n);
    YearUnique(n, r, year);
  }

  /** The day number of a valid date lies in its year, at its offset into the year. */
  lemma MakeDayInYear(c: Civil)
    requires ValidCivil(c)
    ensures MakeDay(c.year, c.month, c.date)
         == DayFromYear(c.year) + MonthStart(c.month, InLeapYear(c.year)) + c.date - 1
    ensures 0 <= MonthStart(c.month, InLeapYear(c.year)) + c.date - 1 < MonthStart(12, InLeapYear(c.year))
    ensures DayFromYear(c.year) <= MakeDay(c.year, c.month, c.date) < DayFromYear(c.year + 1)
  {
    assert c.year + c.month / 12 == c.year && c.month % 12 == c.month;
    MonthStartEnd(c.year);
    DayFromYearStep(c.year);
    if c.month < 11 { MonthStartMonotone(c.month + 1, 12, InLeapYear(c.year)); }
  }

  /** The day at offset d into `year` decomposes back into `year` and that offset. */
  lemma CivilOfDayInYear(n: int, c: Civil)
    requires ValidCivil(c)
    requires 0 <= n - DayFromYear(c.year) < MonthStart(12, InLeapYear(c.year))
    requires n - DayFromYear(c.year) == MonthStart(c.month, InLeapYear(c.year)) + c.date - 1
    ensures CivilOfDay(n) == c
  {
    hide CivilInYear;
    hide MonthStart;
    MonthStartEnd(c.year);
    DayFromYearStep(c.year);
    YearOfDayIs(n, c.year);
    var d := n - DayFromYear(c.year);
    var leap := InLeapYear(c.year);
    var r := CivilInYear(c.year, d);
    assert MonthStart(r.month, leap) <= d < MonthStart(r.month + 1, leap);
    assert MonthStart(c.month, leap) <= d < MonthStart(c.month + 1, leap);
    MonthUnique(d, leap, r.month, c.month);
    assert CivilOfDay(n) == r;
  }

  /** A valid calendar date survives the trip through its day number. */
  lemma CivilOfMakeDay(c: Civil)
    requires ValidCivil(c)
    ensures CivilOfDay(MakeDay(c.year, c.month, c.date)) == c
  {
    MakeDayInYear(c);
    CivilOfDayInYear(MakeDay(c.year, c.month, c.date), c);
  }

  /** ECMA-262 WeekDay: 0 is Sunday; day 0 (1 January 1970) was a Thursday. */
  function WeekDay(n: int): (r: int)
    ensures 0 <= r < 7
    ensures n == 0 ==> r == 4
  {
    (n + 4) % 7
  }

  /** The calendar fields of a time value, as the getters read them. */
  function CivilOf(t: int): Civil
  {
    CivilOfDay(Day(t))
  }

  function YearOf(t: int): int { CivilOf(t).year }
  function MonthOf(t: int): int { CivilOf(t).month }
  function DateOf(t: int): int { CivilOf(t).date }
  function DayOfWeek(t: int): int { WeekDay(Day(t)) }

  /** Date.prototype.setDate: a new date in the same month, time of day kept. */
  function SetDate(t: int, date: int): int
  {
    MakeDate(MakeDay(YearOf(t), MonthOf(t), date), TimeWithinDay(t))
  }

  /** Date.prototype.setMonth with the date argument omitted. */
  function SetMonth(t: int, month: int): int
  {
    MakeDate(MakeDay(YearOf(t), month, DateOf(t)), TimeWithinDay(t))
  }

  /** Date.prototype.setFullYear with the month and date arguments omitted. */
  function SetFullYear(t: int, year: int): int
  {
    MakeDate(MakeDay(year, MonthOf(t), DateOf(t)), TimeWithinDay(t))
  }

  /** Date.prototype.setHours with all four arguments given. */
  function SetHours(t: int, hour: int, min: int, sec: int, ms: int): int
  {
    MakeDate(Day(t), MakeTime(hour, min, sec, ms))
  }

  /** Moving the date field by k days moves the time value by exactly k days. */
  lemma SetDateShift(t: int, k: int)
    ensures SetDate(t, DateOf(t) + k) == t + k * MsPerDay
  {
    var c := CivilOf(t);
    assert c.month / 12 == 0 && c.month % 12 == c.month;
    assert MakeDay(c.year, c.month, c.date + k) == MakeDay(c.year, c.month, c.date) + k;
  }

  /** setHours(0, 0, 0, 0): that day's midnight. */
  lemma StartOfDay(t: int)
    ensures SetHours(t, 0, 0, 0, 0) == Day(t) * MsPerDay
    ensures SetHours(t, 0, 0, 0, 0) <= t < SetHours(t, 0, 0, 0, 0) + MsPerDay
  {
  }

  /** setHours(23, 59, 59, 999): the last millisecond of that day. */
  lemma EndOfDay(t: int)
    ensures SetHours(t, 23, 59, 59, 999) == Day(t) * MsPerDay + MsPerDay - 1
    ensures t <= SetHours(t, 23, 59, 59, 999)
    ensures Day(SetHours(t, 23, 59, 59, 999)) == Day(t)
  {
    DayOfMakeDate(Day(t), MsPerDay - 1);
  }
}
