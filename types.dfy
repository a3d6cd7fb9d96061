/**
 * The records of the finance tracker's ledger (types.ts). Timestamps are
 * time values of the Calendar module rather than ISO strings; amounts are
 * exact reals.
 */
module Types {

  datatype Option<T> = None | Some(value: T)

  datatype TransactionType = Income | Expense

  /** How often a recurring definition repeats; NotRecurring is the form's "None". */
  datatype Frequency = NotRecurring | Daily | Weekly | Monthly | Yearly

  datatype Transaction = Transaction(
    id: string,
    amount: real,
    category: string,
    description: string,
    date: int,
    kind: TransactionType)

  /** A recurring definition: the template of its entries and its next due date. */
  datatype RecurringTransaction = RecurringTransaction(
    id: string,
    amount: real,
    category: string,
    description: string,
    kind: TransactionType,
    frequency: Frequency,
    startDate: int,
    nextDueDate: int)

  /** An entry as the add form hands it over: everything but the id. */
  datatype Draft = Draft(
    amount: real,
    category: string,
    description: string,
    date: int,
    kind: TransactionType)

  /** The add form's payload: the entry and the frequency chosen for it. */
  datatype Submission = Submission(transaction: Draft, frequency: Frequency)

  datatype BudgetLimit = BudgetLimit(category: string, limit: real)

  datatype OverallBudget = OverallBudget(daily: real, monthly: real, yearly: real)

  /** The screens of the application, including the two the enum in types.ts omits. */
  datatype View =
    | DashboardView | AddView | AnalyticsView | SettingsView | AiAdvisorView
    | HistoryView | EditView | BudgetView | SubscriptionsView | EditSubscriptionView

  /** The category label that income entries always carry. */
  const IncomeCategory: string := "Income"
}
