/**
 * The application shell (App.tsx): the ledger and recurring lists it owns,
 * the handlers that add, replace and remove their records, and the
 * navigation between ordinary views and the modal views that return to
 * where they were opened from.
 */
module App {
  import opened Types
  import opened Lists
  import opened Calendar
  import opened Schedule
  import opened Recurring

  // ---------------------------------------------------------------- records

  function TransactionId(t: Transaction): string { t.id }

  function RecurringId(r: RecurringTransaction): string { r.id }

  /** No two records of `xs` share an id. */
  predicate IdsUnique<T>(xs: seq<T>, idOf: T -> string)
  {
    forall i, j :: 0 <= i < |xs| && 0 <= j < |xs| && idOf(xs[i]) == idOf(xs[j]) ==> i == j
  }

  /** The update handlers' map: each record with the id of `x` becomes `x`, the rest stay put. */
  function ReplaceById<T>(xs: seq<T>, idOf: T -> string, x: T): (r: seq<T>)
    ensures |r| == |xs|
    ensures forall i :: 0 <= i < |xs| && idOf(xs[i]) != idOf(x) ==> r[i] == xs[i]
    ensures forall i :: 0 <= i < |xs| && idOf(xs[i]) == idOf(x) ==> r[i] == x
  {
    if xs == [] then []
    else [if idOf(xs[0]) == idOf(x) then x else xs[0]] + ReplaceById(xs[1..], idOf, x)
  }

  /** The delete handlers' filter: every record with id `id` goes, the rest keep their order. */
  function RemoveById<T(!new)>(xs: seq<T>, idOf: T -> string, id: string): (r: seq<T>)
    ensures forall x :: x in r <==> x in xs && idOf(x) != id
  {
    var r := Filter(xs, IdOtherThan(idOf, id));
    assert forall x :: x in r <==> x in xs && idOf(x) != id by {
      forall x
        ensures x in r <==> x in xs && idOf(x) != id
      {
        FilterMember(xs, IdOtherThan(idOf, id), x);
      }
    }
    r
  }

  function IdOtherThan<T>(idOf: T -> string, id: string): T -> bool
  {
    x => idOf(x) != id
  }

  /** Replacing a record that is not there changes nothing. */
  lemma ReplaceAbsent<T>(xs: seq<T>, idOf: T -> string, x: T)
    requires forall i :: 0 <= i < |xs| ==> idOf(xs[i]) != idOf(x)
    ensures ReplaceById(xs, idOf, x) == xs
  {
  }

  /** Replacing twice with the same record is replacing once. */
  lemma ReplaceIdempotent<T>(xs: seq<T>, idOf: T -> string, x: T)
    ensures ReplaceById(ReplaceById(xs, idOf, x), idOf, x) == ReplaceById(xs, idOf, x)
  {
  }

  /** With unique ids, replacing record `i` is a point update of position `i`. */
  lemma ReplaceUnique<T>(xs: seq<T>, idOf: T -> string, i: int, x: T)
    requires IdsUnique(xs, idOf) && 0 <= i < |xs| && idOf(x) == idOf(xs[i])
    ensures ReplaceById(xs, idOf, x) == xs[i := x]
    ensures IdsUnique(ReplaceById(xs, idOf, x), idOf)
  {
  }

  /** With unique ids, removing the id of record `i` cuts out exactly that record. */
  lemma RemoveUnique<T(!new)>(xs: seq<T>, idOf: T -> string, i: int)
    requires IdsUnique(xs, idOf) && 0 <= i < |xs|
    ensures RemoveById(xs, idOf, idOf(xs[i])) == xs[..i] + xs[i + 1..]
  {
    var id := idOf(xs[i]);
    var before, after := xs[..i], xs[i + 1..];
    assert xs == before + [xs[i]] + after;
    forall k | 0 <= k < |before| ensures idOf(before[k]) != id {
      assert before[k] == xs[k];
    }
    forall k | 0 <= k < |after| ensures idOf(after[k]) != id {
      assert after[k] == xs[i + 1 + k];
    }
    FilterCut(before, xs[i], after, IdOtherThan(idOf, id));
  }

  /** Deleting after an update of the same id is the same as deleting outright. */
  lemma RemoveAfterReplace<T(!new)>(xs: seq<T>, idOf: T -> string, x: T)
    ensures RemoveById(ReplaceById(xs, idOf, x), idOf, idOf(x)) == RemoveById(xs, idOf, idOf(x))
    decreases |xs|
  {
    if xs != [] {
      var p := IdOtherThan(idOf, idOf(x));
      var r := ReplaceById(xs, idOf, x);
      assert r == [r[0]] + r[1..];
      assert xs == [xs[0]] + xs[1..];
      FilterAppend([r[0]], r[1..], p);
      FilterAppend([xs[0]], xs[1..], p);
      RemoveAfterReplace(xs[1..], idOf, x);
    }
  }

  /** The entry the add form's draft becomes under a freshly minted id. */
  function WithId(d: Draft, id: string): Transaction
  {
    Transaction(id, d.amount, d.category, d.description, d.date, d.kind)
  }

  /**
   * The recurring definition adding an entry creates: none for a one-off
   * entry; otherwise the entry's template, started at the entry's date and
   * next due one step after it.
   */
  function DefinitionFor(s: Submission, id: string): (defs: seq<RecurringTransaction>)
    ensures |defs| == if s.frequency == NotRecurring then 0 else 1
  {
    if s.frequency == NotRecurring then []
    else
      var d := s.transaction;
      [RecurringTransaction(id, d.amount, d.category, d.description, d.kind, s.frequency,
                            d.date, AdvanceOnCreate(d.date, s.frequency))]
  }

  /**
   * A definition created with an entry copies the entry's data, starts on
   * its date and is next due exactly one frequency step later, so a pass on
   * the entry's own day generates nothing for it.
   */
  lemma DefinitionForSchedule(s: Submission, id: string, mintId: nat -> string)
    requires s.frequency != NotRecurring
    ensures var r := DefinitionFor(s, id)[0];
            var d := s.transaction;
            r.amount == d.amount && r.category == d.category && r.description == d.description
            && r.kind == d.kind && r.frequency == s.frequency && r.startDate == d.date
            && r.nextDueDate == d.date + StepDays(d.date, s.frequency) * MsPerDay
            && !Due(r, EndOfToday(d.date))
            && Generated([r], EndOfToday(d.date), mintId) == []
  {
    var d := s.transaction;
    AdvanceBy(d.date, s.frequency);
    var r := DefinitionFor(s, id)[0];
    assert [r][..0] == [];
  }

  // ------------------------------------------------------------ navigation

  /** The views shown as overlays, which remember the view they were opened from. */
  predicate IsModalView(v: View)
  {
    v == AddView || v == SettingsView || v == EditView || v == EditSubscriptionView || v == BudgetView
  }

  /** The displayed view and the view a modal returns to. */
  datatype Nav = Nav(current: View, back: View)

  /** navigateTo: the return view is recorded only on the way from an ordinary view into a modal one. */
  function NavigateStep(s: Nav, view: View): (t: Nav)
    ensures t.current == view
    ensures t.back == if IsModalView(view) && !IsModalView(s.current) then s.current else s.back
  {
    if IsModalView(view) && !IsModalView(s.current) then Nav(view, s.current)
    else Nav(view, s.back)
  }

  /** handleBack: show the return view. */
  function BackStep(s: Nav): (t: Nav)
    ensures t.current == s.back && t.back == s.back
  {
    s.(current := s.back)
  }

  /** The return view is never a modal view, whatever the navigation. */
  lemma NavigateKeepsBackOrdinary(s: Nav, view: View)
    requires !IsModalView(s.back)
    ensures !IsModalView(NavigateStep(s, view).back)
    ensures !IsModalView(BackStep(NavigateStep(s, view)).current)
  {
  }

  /** Navigating through the views in `views`, from state `s`. */
  function NavigateAll(s: Nav, views: seq<View>): Nav
    decreases |views|
  {
    if views == [] then s else NavigateAll(NavigateStep(s, views[0]), views[1..])
  }

  /**
   * Opening a modal view from an ordinary one, then moving between modal
   * views any number of times, and going back lands on the ordinary view
   * the first modal was opened from.
   */
  lemma {:induction false} ModalRoundTrip(s: Nav, views: seq<View>)
    requires views != [] && !IsModalView(s.current)
    requires forall i :: 0 <= i < |views| ==> IsModalView(views[i])
    ensures BackStep(NavigateAll(s, views)).current == s.current
  {
    var t := NavigateStep(s, views[0]);
    assert t.back == s.current && IsModalView(t.current);
    ModalChain(t, views[1..]);
  }

  /** Moving between modal views keeps the return view. */
  lemma {:induction false} ModalChain(s: Nav, views: seq<View>)
    requires IsModalView(s.current)
    requires forall i :: 0 <= i < |views| ==> IsModalView(views[i])
    ensures NavigateAll(s, views).back == s.back
    decreases |views|
  {
    if views != [] {
      ModalChain(NavigateStep(s, views[0]), views[1..]);
    }
  }

  // ------------------------------------------------------------ app state

  /** The state App.tsx keeps with useState, and its handlers. */
  class AppState {
    var currentView: View
    var returnView: View
    var transactions: seq<Transaction>
    var recurring: seq<RecurringTransaction>
    var selectedTransaction: Option<Transaction>
    var selectedRecurring: Option<RecurringTransaction>
    var isAddingSubscription: bool

    /** The state holds no modal view to return to. */
    predicate Valid()
      reads this
    {
      !IsModalView(returnView)
    }

    function Navigation(): Nav
      reads this
    {
      Nav(currentView, returnView)
    }

    /** The initial state: both views on the dashboard, nothing loaded or selected. */
    constructor ()
      ensures Valid()
      ensures currentView == DashboardView && returnView == DashboardView
      ensures transactions == [] && recurring == []
      ensures selectedTransaction == None && selectedRecurring == None
      ensures !isAddingSubscription
    {
      currentView := DashboardView;
      returnView := DashboardView;
      transactions := [];
      recurring := [];
      selectedTransaction := None;
      selectedRecurring := None;
      isAddingSubscription := false;
    }

    method NavigateTo(view: View)
      requires Valid()
      modifies this
      ensures Valid()
      ensures Navigation() == NavigateStep(old(Navigation()), view)
      ensures transactions == old(transactions) && recurring == old(recurring)
      ensures selectedTransaction == old(selectedTransaction) && selectedRecurring == old(selectedRecurring)
      ensures isAddingSubscription == old(isAddingSubscription)
    {
      if IsModalView(view) && !IsModalView(currentView) {
        returnView := currentView;
      }
      currentView := view;
    }

    /** Leaves a modal view: the view shown afterwards is never modal. */
    method HandleBack()
      requires Valid()
      modifies this
      ensures Valid() && !IsModalView(currentView)
      ensures Navigation() == BackStep(old(Navigation()))
      ensures transactions == old(transactions) && recurring == old(recurring)
      ensures selectedTransaction == old(selectedTransaction) && selectedRecurring == old(selectedRecurring)
      ensures isAddingSubscription == old(isAddingSubscription)
    {
      currentView := returnView;
    }

    /**
     * Appends the submitted entry under `txId`; when a frequency was chosen,
     * appends the definition it starts under `recurringId`; then returns.
     */
    method HandleAddTransaction(data: Submission, txId: string, recurringId: string)
      requires Valid()
      modifies this
      ensures Valid() && !IsModalView(currentView)
      ensures transactions == old(transactions) + [WithId(data.transaction, txId)]
      ensures recurring == old(recurring) + DefinitionFor(data, recurringId)
      ensures !isAddingSubscription
      ensures currentView == old(returnView) && returnView == old(returnView)
      ensures selectedTransaction == old(selectedTransaction) && selectedRecurring == old(selectedRecurring)
    {
      hide AdvanceOnCreate;
      var newTx := WithId(data.transaction, txId);
      transactions := transactions + [newTx];
      if data.frequency != NotRecurring {
        var txData := data.transaction;
        var nextDate := AdvanceOnCreate(txData.date, data.frequency);
        var newRecurring := RecurringTransaction(recurringId, txData.amount, txData.category,
          txData.description, txData.kind, data.frequency, txData.date, nextDate);
        recurring := recurring + [newRecurring];
      }
      isAddingSubscription := false;
      currentView := returnView;
    }

    method HandleUpdateTransaction(updatedTx: Transaction)
      requires Valid()
      modifies this
      ensures Valid() && !IsModalView(currentView)
      ensures transactions == ReplaceById(old(transactions), TransactionId, updatedTx)
      ensures selectedTransaction == None
      ensures currentView == old(returnView) && returnView == old(returnView)
      ensures recurring == old(recurring) && selectedRecurring == old(selectedRecurring)
      ensures isAddingSubscription == old(isAddingSubscription)
    {
      transactions := ReplaceById(transactions, TransactionId, updatedTx);
      selectedTransaction := None;
      currentView := returnView;
    }

    method HandleUpdateRecurring(updatedRT: RecurringTransaction)
      requires Valid()
      modifies this
      ensures Valid() && !IsModalView(currentView)
      ensures recurring == ReplaceById(old(recurring), RecurringId, updatedRT)
      ensures selectedRecurring == None
      ensures currentView == old(returnView) && returnView == old(returnView)
      ensures transactions == old(transactions) && selectedTransaction == old(selectedTransaction)
      ensures isAddingSubscription == old(isAddingSubscription)
    {
      recurring := ReplaceById(recurring, RecurringId, updatedRT);
      selectedRecurring := None;
      currentView := returnView;
    }

    method HandleDeleteTransaction(id: string)
      requires Valid()
      modifies this
      ensures Valid() && !IsModalView(currentView)
      ensures transactions == RemoveById(old(transactions), TransactionId, id)
      ensures selectedTransaction == None
      ensures currentView == old(returnView) && returnView == old(returnView)
      ensures recurring == old(recurring) && selectedRecurring == old(selectedRecurring)
      ensures isAddingSubscription == old(isAddingSubscription)
    {
      transactions := RemoveById(transactions, TransactionId, id);
      selectedTransaction := None;
      currentView := returnView;
    }

    /**
     * Removes the definitions with id `id`; only when the definition being
     * edited is the one removed does the editor close and return.
     */
    method HandleDeleteRecurring(id: string)
      requires Valid()
      modifies this
      ensures Valid()
      ensures recurring == RemoveById(old(recurring), RecurringId, id)
      ensures old(selectedRecurring).Some? && old(selectedRecurring).value.id == id ==>
                selectedRecurring == None && currentView == old(returnView)
      ensures !(old(selectedRecurring).Some? && old(selectedRecurring).value.id == id) ==>
                selectedRecurring == old(selectedRecurring) && currentView == old(currentView)
      ensures returnView == old(returnView)
      ensures transactions == old(transactions) && selectedTransaction == old(selectedTransaction)
      ensures isAddingSubscription == old(isAddingSubscription)
    {
      recurring := RemoveById(recurring, RecurringId, id);
      if selectedRecurring.Some? && selectedRecurring.value.id == id {
        selectedRecurring := None;
        currentView := returnView;
      }
    }

    method HandleSelectTransaction(t: Transaction)
      requires Valid()
      modifies this
      ensures Valid()
      ensures selectedTransaction == Some(t)
      ensures Navigation() == NavigateStep(old(Navigation()), EditView)
      ensures transactions == old(transactions) && recurring == old(recurring)
      ensures selectedRecurring == old(selectedRecurring)
      ensures isAddingSubscription == old(isAddingSubscription)
    {
      selectedTransaction := Some(t);
      NavigateTo(EditView);
    }

    method HandleSelectRecurring(rt: RecurringTransaction)
      requires Valid()
      modifies this
      ensures Valid()
      ensures selectedRecurring == Some(rt)
      ensures Navigation() == NavigateStep(old(Navigation()), EditSubscriptionView)
      ensures transactions == old(transactions) && recurring == old(recurring)
      ensures selectedTransaction == old(selectedTransaction)
      ensures isAddingSubscription == old(isAddingSubscription)
    {
      selectedRecurring := Some(rt);
      NavigateTo(EditSubscriptionView);
    }

    method NavigateToAdd(forceSub: bool)
      requires Valid()
      modifies this
      ensures Valid()
      ensures isAddingSubscription == forceSub
      ensures Navigation() == NavigateStep(old(Navigation()), AddView)
      ensures transactions == old(transactions) && recurring == old(recurring)
      ensures selectedTransaction == old(selectedTransaction) && selectedRecurring == old(selectedRecurring)
    {
      isAddingSubscription := forceSub;
      NavigateTo(AddView);
    }
  }
}
