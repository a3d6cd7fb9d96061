/**
 * Materialisation of recurring definitions (processRecurringTransactions in
 * App.tsx): every definition whose next due date falls by the end of today emits
 * one ledger entry per elapsed occurrence, and its next due date moves one
 * frequency step past each of them.
 */
module Recurring {
  import opened Calendar
  import opened Types
  import opened Schedule

  /** Today at 23:59:59.999: the inclusive bound of a materialisation pass. */
  function EndOfToday(now: int): (limit: int)
    ensures now <= limit
    ensures Day(limit) == Day(now)
    ensures limit == Day(now) * MsPerDay + MsPerDay - 1
  {
    EndOfDay(now);
    SetHours(now, 23, 59, 59, 999)
  }

  /** The due dates reached from the next due date `next` up to and including `limit`. */
  function DueDates(next: int, f: Frequency, limit: int): seq<int>
    decreases limit - next
  {
    if next <= limit then
      AdvanceIncreases(next, f);
      [next] + DueDates(Advance(next, f), f, limit)
    else []
  }

  /** Where the next due date `next` comes to rest: the first step past `limit`. */
  function FinalDue(next: int, f: Frequency, limit: int): (r: int)
    ensures r > limit && r >= next
    ensures next > limit ==> r == next
    decreases limit - next
  {
    if next <= limit then
      AdvanceIncreases(next, f);
      FinalDue(Advance(next, f), f, limit)
    else next
  }

  /** The ledger entry generated for definition `r` on `date`, under a freshly minted id. */
  function Entry(r: RecurringTransaction, date: int, id: string): Transaction
  {
    Transaction(id, r.amount, r.category, r.description, date, r.kind)
  }

  /** Entries for `dates`, the k-th one taking the id minted on call `base + k`. */
  function EntriesAt(r: RecurringTransaction, dates: seq<int>, mintId: nat -> string, base: nat): (es: seq<Transaction>)
    ensures |es| == |dates|
  {
    if dates == [] then []
    else
      EntriesAt(r, dates[..|dates| - 1], mintId, base)
        + [Entry(r, dates[|dates| - 1], mintId(base + |dates| - 1))]
  }

  /** The entries one definition contributes, numbered from `base`. */
  function EntriesFor(r: RecurringTransaction, limit: int, mintId: nat -> string, base: nat): seq<Transaction>
  {
    EntriesAt(r, DueDates(r.nextDueDate, r.frequency, limit), mintId, base)
  }

  /** All generated entries, definition by definition, in order of occurrence. */
  function Generated(defs: seq<RecurringTransaction>, limit: int, mintId: nat -> string): seq<Transaction>
  {
    if defs == [] then []
    else
      var prev := Generated(defs[..|defs| - 1], limit, mintId);
      prev + EntriesFor(defs[|defs| - 1], limit, mintId, |prev|)
  }

  /** No definitions generate no entries. */
  lemma GeneratedOfNothing(limit: int, mintId: nat -> string)
    ensures Generated([], limit, mintId) == []
  {
  }

  /** The definitions up to and including `i` generate those before `i`, then the entries of `i`. */
  lemma GeneratedSnoc(defs: seq<RecurringTransaction>, i: nat, limit: int, mintId: nat -> string)
    requires i < |defs|
    ensures var prev := Generated(defs[..i], limit, mintId);
            Generated(defs[..i + 1], limit, mintId) == prev + EntriesFor(defs[i], limit, mintId, |prev|)
  {
    assert defs[..i + 1][..i] == defs[..i];
  }

  /** One due date taken off the front of the schedule. */
  lemma DueDatesStep(next: int, f: Frequency, limit: int)
    requires next <= limit
    ensures DueDates(next, f, limit) == [next] + DueDates(Advance(next, f), f, limit)
    ensures FinalDue(next, f, limit) == FinalDue(Advance(next, f), f, limit)
  {
  }

  /** A next due date already past the bound has no due dates left. */
  lemma DueDatesDone(next: int, f: Frequency, limit: int)
    requires next > limit
    ensures DueDates(next, f, limit) == []
  {
  }

  /** Entries for one more date extend the entries so far by one. */
  lemma EntriesAtAppend(r: RecurringTransaction, dates: seq<int>, date: int, mintId: nat -> string, base: nat)
    ensures EntriesAt(r, dates + [date], mintId, base)
         == EntriesAt(r, dates, mintId, base) + [Entry(r, date, mintId(base + |dates|))]
  {
    assert (dates + [date])[..|dates|] == dates;
  }

  /** The entries accumulated after one more date, as the pass builds them. */
  lemma EntriesGrow(r: RecurringTransaction, prefix: seq<Transaction>, dates: seq<int>, date: int, mintId: nat -> string)
    ensures var acc := prefix + EntriesAt(r, dates, mintId, |prefix|);
            acc + [Entry(r, date, mintId(|acc|))] == prefix + EntriesAt(r, dates + [date], mintId, |prefix|)
  {
    EntriesAtAppend(r, dates, date, mintId, |prefix|);
  }

  /** A definition with its next due date caught up past `limit`. */
  function Advanced(r: RecurringTransaction, limit: int): RecurringTransaction
  {
    r.(nextDueDate := FinalDue(r.nextDueDate, r.frequency, limit))
  }

  /** Every definition caught up past `limit`, in the same order. */
  function AdvancedAll(defs: seq<RecurringTransaction>, limit: int): (out: seq<RecurringTransaction>)
    ensures |out| == |defs|
  {
    seq(|defs|, i requires 0 <= i < |defs| => Advanced(defs[i], limit))
  }

  /** A definition whose next due date has come by `limit`. */
  predicate Due(r: RecurringTransaction, limit: int)
  {
    r.nextDueDate <= limit
  }

  /**
   * The body of the pass for one definition `r`: while its next due date has
   * come, raise the change flag, append an entry dated at it and step it on.
   * Returns the entries generated so far, the flag, and `r` with its next
   * due date moved.
   */
  method CatchUp(r: RecurringTransaction, today: int, mintId: nat -> string,
                 generatedTxs: seq<Transaction>, hasChanges: bool)
    returns (generated: seq<Transaction>, changed: bool, updated: RecurringTransaction)
    ensures generated == generatedTxs + EntriesFor(r, today, mintId, |generatedTxs|)
    ensures changed <==> hasChanges || Due(r, today)
    ensures updated == Advanced(r, today)
  {
    hide Advance;
    hide DueDates;
    hide FinalDue;
    hide EntriesAt;
    generated := generatedTxs;
    changed := hasChanges;
    updated := r;
    var nextDate := r.nextDueDate;
    ghost var taken: seq<int> := [];
    while nextDate <= today
      invariant DueDates(r.nextDueDate, r.frequency, today) == taken + DueDates(nextDate, r.frequency, today)
      invariant FinalDue(nextDate, r.frequency, today) == FinalDue(r.nextDueDate, r.frequency, today)
      invariant generated == generatedTxs + EntriesAt(r, taken, mintId, |generatedTxs|)
      invariant changed <==> hasChanges || taken != []
      invariant taken == [] ==> nextDate == r.nextDueDate
      invariant updated == r.(nextDueDate := nextDate)
      decreases today - nextDate
    {
      changed := true;
      EntriesGrow(r, generatedTxs, taken, nextDate, mintId);
      generated := generated + [Entry(r, nextDate, mintId(|generated|))];
      DueDatesStep(nextDate, r.frequency, today);
      taken := taken + [nextDate];
      AdvanceIncreases(nextDate, r.frequency);
      nextDate := Advance(nextDate, r.frequency);
      updated := updated.(nextDueDate := nextDate);
    }
    DueDatesDone(nextDate, r.frequency, today);
    assert DueDates(r.nextDueDate, r.frequency, today) == taken;
  }

  /**
   * One materialisation pass. `mintId(k)` stands for the id the k-th call
   * of crypto.randomUUID returns during the pass; `now` is the wall clock.
   */
  method ProcessRecurringTransactions(
    currentTxs: seq<Transaction>, currentRecurring: seq<RecurringTransaction>,
    now: int, mintId: nat -> string)
    returns (newTxs: seq<Transaction>, updatedRecurring: seq<RecurringTransaction>, hasChanges: bool)
    ensures newTxs == currentTxs + Generated(currentRecurring, EndOfToday(now), mintId)
    ensures updatedRecurring == AdvancedAll(currentRecurring, EndOfToday(now))
    ensures hasChanges <==> exists i :: 0 <= i < |currentRecurring| && Due(currentRecurring[i], EndOfToday(now))
  {
    hide Advance;
    hide SetHours;
    hide Generated;
    hide EntriesFor;
    hide Advanced;
    hide DueDates;
    hide FinalDue;
    hide EntriesAt;
    var today := SetHours(now, 23, 59, 59, 999);
    var generatedTxs: seq<Transaction> := [];
    GeneratedOfNothing(today, mintId);
    assert currentRecurring[..0] == [];
    updatedRecurring := currentRecurring;
    hasChanges := false;

    var i := 0;
    while i < |updatedRecurring|
      invariant 0 <= i <= |updatedRecurring| == |currentRecurring|
      invariant generatedTxs == Generated(currentRecurring[..i], today, mintId)
      invariant forall k :: 0 <= k < i ==> updatedRecurring[k] == Advanced(currentRecurring[k], today)
      invariant forall k :: i <= k < |updatedRecurring| ==> updatedRecurring[k] == currentRecurring[k]
      invariant hasChanges <==> exists k :: 0 <= k < i && Due(currentRecurring[k], today)
    {
      var r;
      generatedTxs, hasChanges, r := CatchUp(updatedRecurring[i], today, mintId, generatedTxs, hasChanges);
      updatedRecurring := updatedRecurring[i := r];
      GeneratedSnoc(currentRecurring, i, today, mintId);
      i := i + 1;
    }
    newTxs := currentTxs + generatedTxs;
    assert currentRecurring[..i] == currentRecurring;
  }

  /** Every due date lies between the starting next due date and the bound. */
  lemma {:induction false} DueDatesInRange(next: int, f: Frequency, limit: int)
    ensures forall i :: 0 <= i < |DueDates(next, f, limit)| ==> next <= DueDates(next, f, limit)[i] <= limit
    decreases limit - next
  {
    hide Advance;
    if next <= limit {
      AdvanceIncreases(next, f);
      DueDatesInRange(Advance(next, f), f, limit);
    }
  }

  /**
   * The due dates start at the next due date, each is one frequency step after
   * the one before, and the next due date comes to rest one step after the
   * last.
   */
  lemma {:induction false} DueDatesChain(next: int, f: Frequency, limit: int)
    ensures var d := DueDates(next, f, limit);
            (d != [] ==> d[0] == next && FinalDue(next, f, limit) == Advance(d[|d| - 1], f))
            && (forall i :: 0 <= i < |d| - 1 ==> d[i + 1] == Advance(d[i], f))
    decreases limit - next
  {
    hide Advance;
    if next <= limit {
      AdvanceIncreases(next, f);
      DueDatesChain(Advance(next, f), f, limit);
    }
  }

  /** Due dates strictly increase, by at least a day from one to the next. */
  lemma DueDatesIncreasing(next: int, f: Frequency, limit: int)
    ensures var d := DueDates(next, f, limit);
            forall i, j :: 0 <= i < j < |d| ==> d[i] + (j - i) * MsPerDay <= d[j]
  {
    hide Advance;
    var d := DueDates(next, f, limit);
    DueDatesChain(next, f, limit);
    forall i, j | 0 <= i < j < |d|
      ensures d[i] + (j - i) * MsPerDay <= d[j]
    {
      var k := i;
      while k < j
        invariant i <= k <= j
        invariant d[i] + (k - i) * MsPerDay <= d[k]
      {
        AdvanceIncreases(d[k], f);
        k := k + 1;
      }
    }
  }

  /** Entry `e` copies its data from definition `r` and is dated at one of its due dates. */
  predicate FromDefinition(e: Transaction, r: RecurringTransaction, limit: int)
  {
    e.amount == r.amount && e.category == r.category && e.description == r.description
    && e.kind == r.kind && e.date in DueDates(r.nextDueDate, r.frequency, limit)
    && r.nextDueDate <= e.date <= limit
  }

  lemma {:induction false} EntriesAtFrom(r: RecurringTransaction, dates: seq<int>, mintId: nat -> string, base: nat)
    ensures forall k :: 0 <= k < |dates| ==>
              EntriesAt(r, dates, mintId, base)[k] == Entry(r, dates[k], mintId(base + k))
  {
    if dates != [] {
      EntriesAtFrom(r, dates[..|dates| - 1], mintId, base);
    }
  }

  /** The entries of one definition carry consecutive minted ids and come from that definition. */
  lemma EntriesForFrom(r: RecurringTransaction, limit: int, mintId: nat -> string, base: nat)
    ensures var es := EntriesFor(r, limit, mintId, base);
            forall k :: 0 <= k < |es| ==> es[k].id == mintId(base + k) && FromDefinition(es[k], r, limit)
  {
    hide Advance;
    var dates := DueDates(r.nextDueDate, r.frequency, limit);
    EntriesAtFrom(r, dates, mintId, base);
    DueDatesInRange(r.nextDueDate, r.frequency, limit);
  }

  /**
   * The k-th generated entry takes the id of the k-th id minted in the pass,
   * and copies amount, category, description and type from one definition,
   * at one of its due dates no later than the bound.
   */
  lemma {:induction false} GeneratedFrom(defs: seq<RecurringTransaction>, limit: int, mintId: nat -> string)
    ensures var g := Generated(defs, limit, mintId);
            forall k :: 0 <= k < |g| ==>
              g[k].id == mintId(k) && exists j :: 0 <= j < |defs| && FromDefinition(g[k], defs[j], limit)
  {
    hide Advance;
    if defs != [] {
      var init := defs[..|defs| - 1];
      var r := defs[|defs| - 1];
      var prev := Generated(init, limit, mintId);
      var es := EntriesFor(r, limit, mintId, |prev|);
      var g := Generated(defs, limit, mintId);
      assert g == prev + es;
      GeneratedFrom(init, limit, mintId);
      EntriesForFrom(r, limit, mintId, |prev|);
      forall k | 0 <= k < |g|
        ensures g[k].id == mintId(k) && exists j :: 0 <= j < |defs| && FromDefinition(g[k], defs[j], limit)
      {
        if k < |prev| {
          var j :| 0 <= j < |init| && FromDefinition(prev[k], init[j], limit);
          assert defs[j] == init[j];
        } else {
          assert g[k] == es[k - |prev|];
          assert FromDefinition(g[k], defs[|defs| - 1], limit);
        }
      }
    }
  }

  /** A definition comes back from the pass unchanged exactly when it was not yet due. */
  lemma AdvancedUnchanged(r: RecurringTransaction, limit: int, mintId: nat -> string, base: nat)
    ensures Advanced(r, limit) == r <==> !Due(r, limit)
    ensures !Due(r, limit) ==> EntriesFor(r, limit, mintId, base) == []
    ensures Advanced(r, limit).nextDueDate > limit
  {
  }

  /** Definitions none of which is due generate nothing. */
  lemma {:induction false} GeneratedNoneDue(defs: seq<RecurringTransaction>, limit: int, mintId: nat -> string)
    requires forall i :: 0 <= i < |defs| ==> !Due(defs[i], limit)
    ensures Generated(defs, limit, mintId) == []
  {
    if defs != [] {
      GeneratedNoneDue(defs[..|defs| - 1], limit, mintId);
    }
  }

  /**
   * Running the pass again on its own output with the same bound generates
   * nothing, raises no change flag and changes no definition.
   */
  lemma SecondPassIdle(defs: seq<RecurringTransaction>, limit: int, mintId: nat -> string)
    ensures var out := AdvancedAll(defs, limit);
            Generated(out, limit, mintId) == []
            && AdvancedAll(out, limit) == out
            && forall i :: 0 <= i < |out| ==> !Due(out[i], limit)
  {
    var out := AdvancedAll(defs, limit);
    GeneratedNoneDue(out, limit, mintId);
  }

  /** A weekly step is exactly seven days. */
  lemma WeeklyStep(t: int)
    ensures Advance(t, Weekly) == t + 7 * MsPerDay
  {
    AdvanceBy(t, Weekly);
  }

  /**
   * A weekly definition last due three weeks ago catches up with four
   * entries, the last one today, and its next due date rests one week from today.
   */
  lemma WeeklyCatchUp(now: int, time: int)
    requires 0 <= time < MsPerDay
    ensures var next := (Day(now) - 21) * MsPerDay + time;
            var week := 7 * MsPerDay;
            DueDates(next, Weekly, EndOfToday(now)) == [next, next + week, next + 2 * week, next + 3 * week]
            && FinalDue(next, Weekly, EndOfToday(now)) == next + 4 * week
  {
    hide Advance;
    var limit := EndOfToday(now);
    var next := (Day(now) - 21) * MsPerDay + time;
    var week := 7 * MsPerDay;
    WeeklyStep(next);
    WeeklyStep(next + week);
    WeeklyStep(next + 2 * week);
    WeeklyStep(next + 3 * week);
    DueDatesStep(next, Weekly, limit);
    DueDatesStep(next + week, Weekly, limit);
    DueDatesStep(next + 2 * week, Weekly, limit);
    DueDatesStep(next + 3 * week, Weekly, limit);
  }
}
