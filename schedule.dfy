/**
 * The frequency step of a recurring definition (App.tsx): one day, seven
 * days, one calendar month or one calendar year, applied to a time value
 * with the date setters, so an out-of-range date rolls forward.
 */
module Schedule {
  import opened Calendar
  import opened Types

  /**
   * The step the materialisation loop applies after each generated entry;
   * any frequency other than the four recurring ones falls back to one day.
   */
  function Advance(t: int, f: Frequency): int
  {
    match f
    case Daily => SetDate(t, DateOf(t) + 1)
    case Weekly => SetDate(t, DateOf(t) + 7)
    case Monthly => SetMonth(t, MonthOf(t) + 1)
    case Yearly => SetFullYear(t, YearOf(t) + 1)
    case NotRecurring => SetDate(t, DateOf(t) + 1)
  }

  /**
   * The step taken when a recurring entry is first added: the same four
   * cases, but with no fallback, so a non-recurring frequency moves nothing.
   */
  function AdvanceOnCreate(t: int, f: Frequency): (r: int)
    ensures f != NotRecurring ==> r == Advance(t, f)
    ensures f == NotRecurring ==> r == t
  {
    match f
    case Daily => SetDate(t, DateOf(t) + 1)
    case Weekly => SetDate(t, DateOf(t) + 7)
    case Monthly => SetMonth(t, MonthOf(t) + 1)
    case Yearly => SetFullYear(t, YearOf(t) + 1)
    case NotRecurring => t
  }

  /** Stepping a date into the next month moves it by the length of its own month. */
  lemma MonthStep(c: Civil)
    requires ValidCivil(c)
    ensures MakeDay(c.year, c.month + 1, c.date)
         == MakeDay(c.year, c.month, c.date) + DaysInMonth(c.year, c.month)
  {
    MonthStartEnd(c.year);
    DayFromYearStep(c.year);
    assert c.month / 12 == 0 && c.month % 12 == c.month;
    if c.month == 11 {
      assert (c.month + 1) / 12 == 1 && (c.month + 1) % 12 == 0;
    } else {
      assert (c.month + 1) / 12 == 0 && (c.month + 1) % 12 == c.month + 1;
    }
  }

  /** Stepping a date into the next year moves it by the length of the year it passes through. */
  lemma YearStep(c: Civil)
    requires ValidCivil(c)
    ensures MakeDay(c.year + 1, c.month, c.date)
         == MakeDay(c.year, c.month, c.date)
            + (if c.month < 2 then DaysInYear(c.year) else DaysInYear(c.year + 1))
  {
    DayFromYearStep(c.year);
    assert c.month / 12 == 0 && c.month % 12 == c.month;
  }

  /**
   * The exact size of each step, in whole days, with the time of day kept:
   * a day, a week, the length of the current month, or the length of the
   * year that the step passes through.
   */
  function StepDays(t: int, f: Frequency): (days: int)
    ensures days >= 1
  {
    match f
    case Weekly => 7
    case Monthly => DaysInMonth(YearOf(t), MonthOf(t))
    case Yearly => if MonthOf(t) < 2 then DaysInYear(YearOf(t)) else DaysInYear(YearOf(t) + 1)
    case _ => 1
  }

  /** A time value moved by a whole number of days keeps its time of day. */
  lemma ShiftByDays(t: int, k: int)
    ensures MakeDate(Day(t) + k, TimeWithinDay(t)) == t + k * MsPerDay
    ensures TimeWithinDay(t + k * MsPerDay) == TimeWithinDay(t)
  {
    DayOfMakeDate(Day(t) + k, TimeWithinDay(t));
  }

  lemma AdvanceMonthBy(t: int)
    ensures Advance(t, Monthly) == t + StepDays(t, Monthly) * MsPerDay
  {
    hide MakeDay;
    hide CivilOfDay;
    var c := CivilOf(t);
    var k := DaysInMonth(c.year, c.month);
    MonthStep(c);
    assert Advance(t, Monthly) == MakeDate(MakeDay(c.year, c.month + 1, c.date), TimeWithinDay(t));
    ShiftByDays(t, k);
  }

  lemma AdvanceYearBy(t: int)
    ensures Advance(t, Yearly) == t + StepDays(t, Yearly) * MsPerDay
  {
    hide MakeDay;
    hide CivilOfDay;
    var c := CivilOf(t);
    var k := StepDays(t, Yearly);
    YearStep(c);
    assert Advance(t, Yearly) == MakeDate(MakeDay(c.year + 1, c.month, c.date), TimeWithinDay(t));
    ShiftByDays(t, k);
  }

  lemma AdvanceBy(t: int, f: Frequency)
    ensures Advance(t, f) == t + StepDays(t, f) * MsPerDay
    ensures TimeWithinDay(Advance(t, f)) == TimeWithinDay(t)
  {
    match f {
      case Daily => SetDateShift(t, 1);
      case NotRecurring => SetDateShift(t, 1);
      case Weekly => SetDateShift(t, 7);
      case Monthly => AdvanceMonthBy(t);
      case Yearly => AdvanceYearBy(t);
    }
    ShiftByDays(t, StepDays(t, f));
  }

  /** Every step moves strictly forward, by at least a whole day. */
  lemma AdvanceIncreases(t: int, f: Frequency)
    ensures Advance(t, f) >= t + MsPerDay
  {
    AdvanceBy(t, f);
  }

  /** The time value of a valid date at a given time of day reads back as that date. */
  lemma CivilOfMakeDate(c: Civil, time: int)
    requires ValidCivil(c) && 0 <= time < MsPerDay
    ensures CivilOf(MakeDate(MakeDay(c.year, c.month, c.date), time)) == c
    ensures TimeWithinDay(MakeDate(MakeDay(c.year, c.month, c.date), time)) == time
  {
    DayOfMakeDate(MakeDay(c.year, c.month, c.date), time);
    CivilOfMakeDay(c);
  }

  /**
   * 31 January plus one month is 3 March, or 2 March in a leap year: the
   * days February lacks carry over instead of being clamped away.
   */
  lemma MonthEndRollsOver(year: int, time: int)
    requires 0 <= time < MsPerDay
    ensures CivilOf(Advance(MakeDate(MakeDay(year, 0, 31), time), Monthly))
         == Civil(year, 2, if InLeapYear(year) then 2 else 3)
  {
    var next := Civil(year, 2, if InLeapYear(year) then 2 else 3);
    CivilOfMakeDate(Civil(year, 0, 31), time);
    MarchFromFebruary(year, 31, next.date);
    CivilOfMakeDate(next, time);
  }

  /** A date of February past its end is the corresponding day of March. */
  lemma MarchFromFebruary(year: int, date: int, marchDate: int)
    requires marchDate == date - (if InLeapYear(year) then 29 else 28)
    ensures MakeDay(year, 1, date) == MakeDay(year, 2, marchDate)
  {
  }

  /** 29 February plus one year is 1 March of the following year. */
  lemma LeapDayRollsOver(year: int, time: int)
    requires InLeapYear(year)
    requires 0 <= time < MsPerDay
    ensures CivilOf(Advance(MakeDate(MakeDay(year, 1, 29), time), Yearly)) == Civil(year + 1, 2, 1)
  {
    var t := MakeDate(MakeDay(year, 1, 29), time);
    CivilOfMakeDate(Civil(year, 1, 29), time);
    hide MakeDay;
    assert Advance(t, Yearly) == MakeDate(MakeDay(year + 1, 1, 29), time);
    AfterLeapYear(year);
    MarchFromFebruary(year + 1, 29, 1);
    CivilOfMakeDate(Civil(year + 1, 2, 1), time);
  }

  /** The year after a leap year is a common year. */
  lemma AfterLeapYear(year: int)
    requires InLeapYear(year)
    ensures !InLeapYear(year + 1)
  {
    var k := year / 4;
    assert year == 4 * k;
    assert year + 1 == 4 * k + 1;
    assert (year + 1) % 4 == 1;
  }
}
