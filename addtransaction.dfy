/**
 * The new-entry form (components/AddTransaction.tsx): its default date and
 * the payload its submit handler hands to the application.
 */
module AddTransactionForm {
  import opened Types
  import opened Calendar
  import opened Text
  import opened DateStrings

  /** The category an entry is filed under: income always carries the Income label. */
  function FinalCategory(kind: TransactionType, category: string): string
  {
    if kind == Income then IncomeCategory else category
  }

  /**
   * handleSubmit: nothing is submitted for an empty amount, nor when the date
   * field does not name a valid date (building its ISO string would throw).
   * Otherwise the entry takes the parsed amount, the final category, the
   * trimmed description (or the category when that is blank), the chosen
   * type, local noon of the chosen day, and the chosen frequency as is.
   */
  function HandleSubmit(amountText: string, parsedAmount: real, description: string,
                        category: string, kind: TransactionType, dateText: string,
                        frequency: Frequency): (r: Option<Submission>)
    ensures r.None? <==> amountText == "" || NoonOf(dateText).None?
    ensures r.Some? ==>
      var d := r.value.transaction;
      && r.value.frequency == frequency
      && d.amount == parsedAmount && d.kind == kind
      && (kind == Income ==> d.category == IncomeCategory)
      && (kind == Expense ==> d.category == category)
      && (Trim(description) != "" ==> d.description == Trim(description))
      && (Trim(description) == "" ==> d.description == d.category)
      && Some(d.date) == NoonOf(dateText)
  {
    if amountText == "" then None
    else
      var finalCategory := FinalCategory(kind, category);
      match NoonOf(dateText)
      case None => None
      case Some(date) =>
        var text := Trim(description);
        Some(Submission(
          Draft(parsedAmount, finalCategory, if text == "" then finalCategory else text, date, kind),
          frequency))
  }

  /**
   * Submitting with the date field left at its default files the entry at
   * 12:00 on today's calendar date.
   */
  lemma SubmitOnDefaultDate(amountText: string, parsedAmount: real, description: string,
                            category: string, kind: TransactionType, frequency: Frequency,
                            clock: int)
    requires amountText != ""
    requires 0 <= Day(clock) < 100000000
    ensures var r := HandleSubmit(amountText, parsedAmount, description, category, kind,
                                  DefaultDateString(clock), frequency);
            && r.Some?
            && r.value.transaction.date == MakeDate(Day(clock), 12 * MsPerHour)
            && CivilOf(r.value.transaction.date) == CivilOf(clock)
            && TimeWithinDay(r.value.transaction.date) == 12 * MsPerHour
  {
    DefaultDateRoundTrip(clock);
    DayOfMakeDate(Day(clock), 12 * MsPerHour);
  }

  /**
   * A submitted description is never blank when the category is not, and
   * it carries no surrounding white space when the category carries none.
   */
  lemma SubmittedDescription(amountText: string, parsedAmount: real, description: string,
                             category: string, kind: TransactionType, dateText: string,
                             frequency: Frequency)
    requires Trim(FinalCategory(kind, category)) == FinalCategory(kind, category) != ""
    ensures var r := HandleSubmit(amountText, parsedAmount, description, category, kind,
                                  dateText, frequency);
            r.Some? ==> (r.value.transaction.description != ""
                         && Trim(r.value.transaction.description) == r.value.transaction.description)
  {
    TrimIdempotent(description);
  }
}
