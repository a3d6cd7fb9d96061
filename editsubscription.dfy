/**
 * The recurring-definition editor (components/EditSubscription.tsx): the
 * frequencies it offers, the due date it shows and the updated definition
 * its submit handler produces.
 */
module EditSubscriptionForm {
  import opened Types
  import opened Calendar
  import opened Text
  import opened DateStrings

  /** The frequencies the editor offers: the four recurring ones, never "None". */
  function FrequencyOptions(): (opts: seq<Frequency>)
    ensures forall f :: f in opts <==> f != NotRecurring
    ensures |opts| == 4
  {
    var opts := [Daily, Weekly, Monthly, Yearly];
    assert forall f :: f != NotRecurring ==> f in opts by {
      forall f | f != NotRecurring
        ensures f in opts
      {
        if f == Daily { assert opts[0] == f; }
        else if f == Weekly { assert opts[1] == f; }
        else if f == Monthly { assert opts[2] == f; }
        else { assert opts[3] == f; }
      }
    }
    opts
  }

  /** The initial value of the due-date field: the calendar-date prefix of the stored value. */
  function InitialDue(original: RecurringTransaction): string
  {
    DatePrefix(original.nextDueDate)
  }

  /**
   * handleSubmit: an amount that does not parse (`None` for NaN) or a
   * description that is blank after trimming submits nothing, and so does a
   * due-date field that is not a valid date. Otherwise the definition keeps
   * its id, type and start date and takes the amount, the trimmed
   * description, the chosen category and frequency, and midnight UTC of the
   * chosen due day.
   */
  function HandleSubmit(original: RecurringTransaction, parsedAmount: Option<real>,
                        description: string, category: string, frequency: Frequency,
                        dueText: string): (r: Option<RecurringTransaction>)
    ensures r.None? <==> parsedAmount.None? || Trim(description) == "" || ParseDateOnly(dueText).None?
    ensures r.Some? ==>
      && r.value.id == original.id && r.value.kind == original.kind
      && r.value.startDate == original.startDate
      && Some(r.value.amount) == parsedAmount
      && r.value.description == Trim(description) != ""
      && r.value.category == category && r.value.frequency == frequency
      && Some(r.value.nextDueDate) == ParseDateOnly(dueText)
  {
    if parsedAmount.None? || Trim(description) == "" then None
    else
      match ParseDateOnly(dueText)
      case None => None
      case Some(due) =>
        Some(original.(amount := parsedAmount.value, description := Trim(description),
                       category := category, frequency := frequency, nextDueDate := due))
  }

  /**
   * Re-submitting without touching the due-date field keeps the calendar
   * date of the next due entry, now at midnight; the stored description is
   * already trimmed.
   */
  lemma UnchangedDueKept(original: RecurringTransaction, amount: real, description: string,
                         category: string, frequency: Frequency)
    requires Trim(description) != ""
    requires -MaxTime <= original.nextDueDate <= MaxTime
    requires 0 <= YearOf(original.nextDueDate) <= 9999
    ensures var r := HandleSubmit(original, Some(amount), description, category, frequency,
                                  InitialDue(original));
            && r.Some?
            && r.value.nextDueDate == MakeDate(Day(original.nextDueDate), 0)
            && InitialDue(r.value) == InitialDue(original)
            && CivilOf(r.value.nextDueDate) == CivilOf(original.nextDueDate)
            && Trim(r.value.description) == r.value.description
  {
    DatePrefixKept(original.nextDueDate);
    DayOfMakeDate(Day(original.nextDueDate), 0);
    TrimIdempotent(description);
  }
}
