/**
 * The dashboard's summary (components/Dashboard.tsx): income, expense and
 * balance over the entries of today, this Sunday-to-Saturday week, this
 * month or this year, and the five most recent entries.
 */
module Dashboard {
  import opened Types
  import opened Lists
  import opened Sorting
  import opened Calendar

  datatype Timeframe = DailyFrame | WeeklyFrame | MonthlyFrame | YearlyFrame

  datatype Totals = Totals(income: real, expense: real, balance: real)

  /** The Sunday that starts the week of day number `n`. */
  function WeekStartDay(n: int): (s: int)
    ensures WeekDay(s) == 0
    ensures s <= n < s + 7
  {
    assert n + 4 == 7 * ((n + 4) / 7) + (n + 4) % 7;
    n - WeekDay(n)
  }

  /**
   * Whether an entry dated `date` belongs to the timeframe around the clock
   * reading `clock`: the same day; the same Sunday-started week; the same
   * month of the same year; the same year.
   */
  predicate InWindow(frame: Timeframe, date: int, clock: int)
  {
    match frame
    case DailyFrame => Day(date) == Day(clock)
    case WeeklyFrame => WeekStartDay(Day(date)) == WeekStartDay(Day(clock))
    case MonthlyFrame => YearOf(date) == YearOf(clock) && MonthOf(date) == MonthOf(clock)
    case YearlyFrame => YearOf(date) == YearOf(clock)
  }

  /** The entries of `ts` in the timeframe, in order. */
  function Included(ts: seq<Transaction>, frame: Timeframe, clock: int): seq<Transaction>
  {
    Filter(ts, InWindowOf(frame, clock))
  }

  function InWindowOf(frame: Timeframe, clock: int): Transaction -> bool
  {
    (t: Transaction) => InWindow(frame, t.date, clock)
  }

  /** The sum of the amounts of the entries of one kind. */
  function Total(ts: seq<Transaction>, kind: TransactionType): real
  {
    if ts == [] then 0.0
    else
      var last := ts[|ts| - 1];
      Total(ts[..|ts| - 1], kind) + (if last.kind == kind then last.amount else 0.0)
  }

  /** The sum of all amounts. */
  function Sum(ts: seq<Transaction>): real
  {
    if ts == [] then 0.0 else Sum(ts[..|ts| - 1]) + ts[|ts| - 1].amount
  }

  /** Every amount counts towards exactly one of the two totals. */
  lemma {:induction false} TotalsPartition(ts: seq<Transaction>)
    ensures Total(ts, Income) + Total(ts, Expense) == Sum(ts)
  {
    if ts != [] {
      TotalsPartition(ts[..|ts| - 1]);
    }
  }

  /** Extending a list by one entry adds that entry's amount to its kind's total. */
  lemma TotalSnoc(ts: seq<Transaction>, t: Transaction, kind: TransactionType)
    ensures Total(ts + [t], kind) == Total(ts, kind) + (if t.kind == kind then t.amount else 0.0)
  {
    assert (ts + [t])[..|ts|] == ts;
  }

  /**
   * The week bounds as the view computes them from the clock: midnight of
   * the Sunday that starts this week, and the last millisecond of the
   * Saturday six days later.
   */
  function WeekWindow(clock: int): (w: (int, int))
    ensures w.0 == WeekStartDay(Day(clock)) * MsPerDay
    ensures w.1 == w.0 + 7 * MsPerDay - 1
  {
    WeekSteps(clock);
    hide SetHours;
    hide SetDate;
    hide DateOf;
    hide CivilOfDay;
    var now := SetHours(clock, 0, 0, 0, 0);
    var startOfWeek := SetHours(SetDate(now, DateOf(now) - DayOfWeek(now)), 0, 0, 0, 0);
    var endOfWeek := SetHours(SetDate(startOfWeek, DateOf(startOfWeek) + 6), 23, 59, 59, 999);
    (startOfWeek, endOfWeek)
  }

  /** The setter steps of the week bounds, one day shift at a time. */
  lemma WeekSteps(clock: int)
    ensures var now := SetHours(clock, 0, 0, 0, 0);
            var startOfWeek := SetHours(SetDate(now, DateOf(now) - DayOfWeek(now)), 0, 0, 0, 0);
            && startOfWeek == WeekStartDay(Day(clock)) * MsPerDay
            && SetHours(SetDate(startOfWeek, DateOf(startOfWeek) + 6), 23, 59, 59, 999)
               == startOfWeek + 7 * MsPerDay - 1
  {
    hide SetHours;
    hide SetDate;
    hide DateOf;
    hide CivilOfDay;
    var n := Day(clock);
    var now := SetHours(clock, 0, 0, 0, 0);
    StartOfDay(clock);
    DayOfMakeDate(n, 0);
    var k := DayOfWeek(now);
    assert k == WeekDay(n);
    MidnightShift(n, -k);
    WeekEnd(n - k);
    assert DateOf(now) - k == DateOf(now) + -k;
  }

  /** Moving a midnight by `k` days with setDate, then setting midnight, lands `k` days on. */
  lemma MidnightShift(m: int, k: int)
    ensures SetHours(SetDate(MakeDate(m, 0), DateOf(MakeDate(m, 0)) + k), 0, 0, 0, 0)
         == MakeDate(m + k, 0)
  {
    SetDateShift(MakeDate(m, 0), k);
    DayOfMakeDate(m + k, 0);
    StartOfDay(MakeDate(m + k, 0));
  }

  /** Six days on from a midnight, the last millisecond of that day ends the week. */
  lemma WeekEnd(m: int)
    ensures SetHours(SetDate(MakeDate(m, 0), DateOf(MakeDate(m, 0)) + 6), 23, 59, 59, 999)
         == MakeDate(m, 0) + 7 * MsPerDay - 1
  {
    SetDateShift(MakeDate(m, 0), 6);
    DayOfMakeDate(m + 6, 0);
    EndOfDay(MakeDate(m + 6, 0));
  }

  /** A time value lies within the computed week bounds exactly when its day is in that week. */
  lemma WeekWindowMatches(date: int, clock: int)
    ensures var w := WeekWindow(clock);
            w.0 <= date <= w.1 <==> InWindow(WeeklyFrame, date, clock)
  {
    var s := WeekStartDay(Day(clock));
    var d := Day(date);
    assert d * MsPerDay <= date < d * MsPerDay + MsPerDay;
    if s <= d < s + 7 {
      assert WeekStartDay(d) == s;
    } else {
      assert d < s || s + 7 <= d;
    }
  }

  /** The view's per-entry test, as written: midnight equality, week bounds, getter equality. */
  predicate IncludeTest(frame: Timeframe, date: int, clock: int)
  {
    var now := SetHours(clock, 0, 0, 0, 0);
    var w := WeekWindow(clock);
    match frame
    case DailyFrame => SetHours(date, 0, 0, 0, 0) == now
    case WeeklyFrame => w.0 <= date <= w.1
    case MonthlyFrame => MonthOf(date) == MonthOf(now) && YearOf(date) == YearOf(now)
    case YearlyFrame => YearOf(date) == YearOf(now)
  }

  /** The test as written selects exactly the entries of the timeframe. */
  lemma IncludeTestMatches(frame: Timeframe, date: int, clock: int)
    ensures IncludeTest(frame, date, clock) <==> InWindow(frame, date, clock)
  {
    StartOfDay(clock);
    StartOfDay(date);
    DayOfMakeDate(Day(clock), 0);
    WeekWindowMatches(date, clock);
  }

  /**
   * The stats memo: walks the entries once, adding each included income to
   * the income total and any other included entry to the expense total.
   */
  method Stats(transactions: seq<Transaction>, timeframe: Timeframe, clock: int) returns (totals: Totals)
    ensures totals.income == Total(Included(transactions, timeframe, clock), Income)
    ensures totals.expense == Total(Included(transactions, timeframe, clock), Expense)
    ensures totals.balance == totals.income - totals.expense
  {
    hide IncludeTest;
    hide InWindow;
    hide Included;
    hide Total;
    var calculatedIncome := 0.0;
    var calculatedExpense := 0.0;
    var i := 0;
    StatsOfNothing(timeframe, clock);
    assert transactions[..0] == [];
    while i < |transactions|
      invariant 0 <= i <= |transactions|
      invariant calculatedIncome == Total(Included(transactions[..i], timeframe, clock), Income)
      invariant calculatedExpense == Total(Included(transactions[..i], timeframe, clock), Expense)
    {
      var t := transactions[i];
      var included := IncludeTest(timeframe, t.date, clock);
      IncludeTestMatches(timeframe, t.date, clock);
      IncludedSnoc(transactions[..i], t, timeframe, clock);
      if included {
        if t.kind == Income {
          calculatedIncome := calculatedIncome + t.amount;
        } else {
          calculatedExpense := calculatedExpense + t.amount;
        }
      }
      assert transactions[..i + 1] == transactions[..i] + [t];
      i := i + 1;
    }
    assert transactions[..i] == transactions;
    totals := Totals(calculatedIncome, calculatedExpense, calculatedIncome - calculatedExpense);
  }

  /** One more entry changes the totals of the included entries by its amount if it is included. */
  lemma IncludedSnoc(ts: seq<Transaction>, t: Transaction, frame: Timeframe, clock: int)
    ensures forall kind :: Total(Included(ts + [t], frame, clock), kind)
              == Total(Included(ts, frame, clock), kind)
                 + (if InWindow(frame, t.date, clock) && t.kind == kind then t.amount else 0.0)
  {
    var p := InWindowOf(frame, clock);
    FilterAppend(ts, [t], p);
    FilterSingle(t, p);
    forall kind: TransactionType
      ensures Total(Included(ts + [t], frame, clock), kind)
              == Total(Included(ts, frame, clock), kind)
                 + (if InWindow(frame, t.date, clock) && t.kind == kind then t.amount else 0.0)
    {
      TotalSnoc(Filter(ts, p), t, kind);
      assert Filter(ts, p) + [] == Filter(ts, p);
    }
  }

  /** Over no entries, all three figures are zero. */
  lemma StatsOfNothing(timeframe: Timeframe, clock: int)
    ensures Total(Included([], timeframe, clock), Income) == 0.0
    ensures Total(Included([], timeframe, clock), Expense) == 0.0
  {
  }

  /** The sort key of the recent list: the later the date, the smaller the key. */
  function NewestFirst(t: Transaction): real
  {
    -(t.date as real)
  }

  /** recentTransactions: a copy sorted by date, newest first, cut to five. */
  function RecentTransactions(transactions: seq<Transaction>): seq<Transaction>
  {
    var sorted := SortBy(transactions, NewestFirst);
    sorted[..if 5 < |sorted| then 5 else |sorted|]
  }

  /** The recent list is a prefix of the entries sorted newest first. */
  lemma RecentPrefix(transactions: seq<Transaction>)
    ensures var s := SortBy(transactions, NewestFirst);
            var r := RecentTransactions(transactions);
            |r| == (if |transactions| < 5 then |transactions| else 5)
            && r == s[..|r|]
  {
  }

  /**
   * The recent list holds min(5, n) of the entries, newest first, and every
   * entry it leaves out is no newer than any entry it shows.
   */
  lemma RecentFive(transactions: seq<Transaction>)
    ensures var r := RecentTransactions(transactions);
            |r| == (if |transactions| < 5 then |transactions| else 5)
            && multiset(r) <= multiset(transactions)
            && (forall i, j :: 0 <= i < j < |r| ==> r[i].date >= r[j].date)
            && forall x, y :: x in multiset(transactions) - multiset(r) && y in r ==> x.date <= y.date
  {
    var s := SortBy(transactions, NewestFirst);
    var r := RecentTransactions(transactions);
    RecentPrefix(transactions);
    SortedPrefixLeast(transactions, NewestFirst, 5);
    forall i, j | 0 <= i < j < |r| ensures r[i].date >= r[j].date {
      assert r[i] == s[i] && r[j] == s[j];
      assert NewestFirst(s[i]) <= NewestFirst(s[j]);
    }
    forall x, y | x in multiset(transactions) - multiset(r) && y in r ensures x.date <= y.date {
      assert NewestFirst(y) <= NewestFirst(x);
    }
  }
}
