/**
 * The subscriptions view (components/Subscriptions.tsx): the expense
 * definitions, their cost normalised to a month and a year, and the number
 * of days until each is next due.
 */
module Subscriptions {
  import opened Types
  import opened Lists
  import opened Calendar

  function IsExpense(r: RecurringTransaction): bool
  {
    r.kind == Expense
  }

  /** expenseSubs: the definitions of kind expense, in order. */
  function ExpenseSubs(defs: seq<RecurringTransaction>): seq<RecurringTransaction>
  {
    Filter(defs, IsExpense)
  }

  /** The monthly equivalent of one definition's amount; a non-recurring frequency costs nothing. */
  function MonthlyCost(s: RecurringTransaction): real
  {
    match s.frequency
    case Daily => s.amount * 30.42
    case Weekly => s.amount * 4.34
    case Monthly => s.amount
    case Yearly => s.amount / 12.0
    case NotRecurring => 0.0
  }

  /** The monthly equivalents summed over a list. */
  function MonthlyTotal(subs: seq<RecurringTransaction>): real
  {
    if subs == [] then 0.0 else MonthlyTotal(subs[..|subs| - 1]) + MonthlyCost(subs[|subs| - 1])
  }

  /**
   * The stats memo: accumulates each definition's monthly equivalent, and
   * twelve times it into the yearly figure.
   */
  method Stats(expenseSubs: seq<RecurringTransaction>) returns (monthly: real, yearly: real)
    ensures monthly == MonthlyTotal(expenseSubs)
    ensures yearly == 12.0 * monthly
    ensures expenseSubs == [] ==> monthly == 0.0 && yearly == 0.0
  {
    monthly := 0.0;
    yearly := 0.0;
    var i := 0;
    while i < |expenseSubs|
      invariant 0 <= i <= |expenseSubs|
      invariant monthly == MonthlyTotal(expenseSubs[..i])
      invariant yearly == 12.0 * monthly
    {
      var s := expenseSubs[i];
      var m := MonthlyCost(s);
      monthly := monthly + m;
      yearly := yearly + m * 12.0;
      assert expenseSubs[..i + 1][..i] == expenseSubs[..i];
      i := i + 1;
    }
    assert expenseSubs[..i] == expenseSubs;
  }

  /** A yearly definition costs a twelfth of its amount a month; a monthly one its amount; none is negative for a non-negative amount. */
  lemma MonthlyCostScales(s: RecurringTransaction)
    ensures s.frequency == Yearly ==> 12.0 * MonthlyCost(s) == s.amount
    ensures s.frequency == Monthly ==> MonthlyCost(s) == s.amount
    ensures s.amount >= 0.0 ==> MonthlyCost(s) >= 0.0
  {
  }

  /** Income definitions never reach the totals: adding one leaves the expense list and its cost alone. */
  lemma IncomeNotCounted(defs: seq<RecurringTransaction>, r: RecurringTransaction)
    requires r.kind == Income
    ensures ExpenseSubs(defs + [r]) == ExpenseSubs(defs)
    ensures MonthlyTotal(ExpenseSubs(defs + [r])) == MonthlyTotal(ExpenseSubs(defs))
  {
    FilterAppend(defs, [r], IsExpense);
    FilterSingle(r, IsExpense);
    assert ExpenseSubs(defs) + [] == ExpenseSubs(defs);
  }

  /** Every listed definition is an expense, and every expense definition is listed. */
  lemma ExpenseSubsExact(defs: seq<RecurringTransaction>, r: RecurringTransaction)
    ensures r in ExpenseSubs(defs) <==> r in defs && r.kind == Expense
  {
    FilterMember(defs, IsExpense, r);
  }

  /** Costs add up over concatenation. */
  lemma {:induction false} MonthlyTotalAppend(xs: seq<RecurringTransaction>, ys: seq<RecurringTransaction>)
    ensures MonthlyTotal(xs + ys) == MonthlyTotal(xs) + MonthlyTotal(ys)
    decreases |ys|
  {
    if ys == [] {
      assert xs + ys == xs;
    } else {
      var init := ys[..|ys| - 1];
      MonthlyTotalAppend(xs, init);
      assert (xs + ys)[..|xs + ys| - 1] == xs + init;
    }
  }

  /** Math.ceil of a / b for a positive divisor, on integers. */
  function CeilDiv(a: int, b: int): (r: int)
    requires b > 0
    ensures (r - 1) * b < a <= r * b
  {
    -((-a) / b)
  }

  /**
   * getDaysUntil: the difference, in days, between the midnights of the
   * target date and of today, rounded up.
   */
  function DaysUntil(target: int, clock: int): int
  {
    var today := SetHours(clock, 0, 0, 0, 0);
    var targetMidnight := SetHours(target, 0, 0, 0, 0);
    var diffTime := targetMidnight - today;
    CeilDiv(diffTime, 1000 * 60 * 60 * 24)
  }

  /**
   * The days until a date are the difference of the day numbers: zero
   * exactly for today, negative exactly for days gone by.
   */
  lemma DaysUntilIsDayDifference(target: int, clock: int)
    ensures DaysUntil(target, clock) == Day(target) - Day(clock)
    ensures DaysUntil(target, clock) == 0 <==> Day(target) == Day(clock)
    ensures DaysUntil(target, clock) < 0 <==> Day(target) < Day(clock)
  {
    StartOfDay(clock);
    StartOfDay(target);
    var k := Day(target) - Day(clock);
    var r := DaysUntil(target, clock);
    assert (r - 1) * MsPerDay < k * MsPerDay <= r * MsPerDay;
  }
}
