/**
 * The entry editor (components/EditTransaction.tsx): the date it shows for
 * a stored entry and the updated entry its submit handler produces.
 */
module EditTransactionForm {
  import opened Types
  import opened Calendar
  import opened DateStrings

  /** The initial value of the date field: the calendar-date prefix of the stored ISO string. */
  function InitialDate(original: Transaction): string
  {
    DatePrefix(original.date)
  }

  /**
   * handleSubmit: an empty amount or an empty description (checked as typed,
   * untrimmed) submits nothing, and so does a date field that is not a
   * valid date. Otherwise the entry keeps its id and takes the parsed
   * amount, the description as typed, the Income label for income or the
   * chosen category, the chosen type and midnight UTC of the chosen day.
   */
  function HandleSubmit(original: Transaction, amountText: string, parsedAmount: real,
                        description: string, category: string, kind: TransactionType,
                        dateText: string): (r: Option<Transaction>)
    ensures r.None? <==> amountText == "" || description == "" || ParseDateOnly(dateText).None?
    ensures r.Some? ==>
      && r.value.id == original.id
      && r.value.amount == parsedAmount && r.value.description == description
      && r.value.kind == kind
      && (kind == Income ==> r.value.category == IncomeCategory)
      && (kind == Expense ==> r.value.category == category)
      && Some(r.value.date) == ParseDateOnly(dateText)
  {
    if amountText == "" || description == "" then None
    else
      match ParseDateOnly(dateText)
      case None => None
      case Some(date) =>
        Some(original.(amount := parsedAmount, description := description,
                       category := if kind == Income then IncomeCategory else category,
                       kind := kind, date := date))
  }

  /**
   * Re-submitting without touching the date field moves the entry to
   * midnight of its own day: the calendar date it shows is unchanged.
   */
  lemma UnchangedDateKept(original: Transaction, amountText: string, parsedAmount: real,
                          description: string, category: string, kind: TransactionType)
    requires amountText != "" && description != ""
    requires -MaxTime <= original.date <= MaxTime && 0 <= YearOf(original.date) <= 9999
    ensures var r := HandleSubmit(original, amountText, parsedAmount, description, category,
                                  kind, InitialDate(original));
            && r.Some?
            && r.value.date == MakeDate(Day(original.date), 0)
            && InitialDate(r.value) == InitialDate(original)
            && CivilOf(r.value.date) == CivilOf(original.date)
  {
    DatePrefixKept(original.date);
    DayOfMakeDate(Day(original.date), 0);
  }
}
