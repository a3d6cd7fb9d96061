# Finance tracker core, modelled in Dafny

This project models the deterministic core of a personal-finance progressive web app. The app keeps three things:
- a ledger of income and expense entries;
- a list of recurring definitions ("subscriptions") that turn into ledger entries when they come due;
- per-category budget limits and a category list.

The modelled logic is:
- the pass that materialises recurring definitions up to the end of today, and the frequency step it uses;
- the application shell's add, update and delete handlers, and its modal return-view navigation;
- the dashboard's income, expense and balance summary over today, this week, this month or this year, and its five most recent entries;
- the history view's case-insensitive search, its stable sort by date or amount, its grouping by month, and the sort-header toggle;
- the subscriptions view's monthly and yearly cost normalisation and its days-until count;
- the budget editor's limit upsert and lookup, and the settings view's category add and delete;
- the three form handlers that build records, including their `YYYY-MM-DD` formatting and parsing;
- the category colour function: a fixed table, otherwise a 32-bit string hash into a nine-colour palette.

## How it is modelled

**Dates.** A date is an `int` time value: milliseconds in one fixed time zone. The `Calendar` module defines the ECMA-262 date arithmetic (section 21.4.1 of ECMA-262) on day numbers:
- `Day`, `TimeWithinDay`, `MakeDay`, `MakeDate`, the leap-year rule and the year, month and date of a day;
- the setters `setDate`, `setMonth`, `setFullYear` and `setHours`.

`MakeDay` normalises an out-of-range month and carries an out-of-range date forward, as `Date` does. So 31 January plus one month is 2 or 3 March, and 29 February plus one year is 1 March.

**Stored dates.** Stored ISO strings are modelled as time values. Only the edit forms work on the text itself: `split('T')[0]` and the date-only form of the `Date` string parser.

**Amounts, ids and the clock.**
- Amounts are exact `real`s. A `parseFloat` result is a parameter; it is `Option<real>` where the source tests for NaN.
- The ids `crypto.randomUUID` returns are a parameter: `mintId(k)` is the id of the k-th call in a pass, or an explicit id argument.
- The wall clock is a parameter.

**Form of the model.** It follows the source:
- Loops that update variables are methods with invariants, proved against specification functions: the materialisation pass, the dashboard totals, the subscription totals, month grouping and the colour hash.
- The React state of the shell, the history view and the budget editor are classes whose methods update fields.
- Expression-only code is functions and lemmas.

## Model

| member | source | states |
|---|---|---|
| Recurring.ProcessRecurringTransactions | App.tsx:147-180 | The result is the input ledger followed by exactly the generated entries, definition by definition. Every definition comes back with its next due date caught up. The change flag is raised iff some definition was due by today 23:59:59.999. |
| Recurring.CatchUp | App.tsx:158-177 | The inner `while` loop for one definition appends one entry per due date up to the bound, in order, with consecutive minted ids. It leaves the next due date at the first step past the bound and raises the flag iff the definition was due. |
| Recurring.EndOfToday | App.tsx:151-152 | `setHours(23, 59, 59, 999)` gives the last millisecond of the current day: the same day, and no earlier than the clock. |
| Recurring.FinalDue | App.tsx:159-176 | The next due date comes to rest strictly after the bound and never before its start. A next due date already past the bound stays where it is. |
| Recurring.DueDatesChain | App.tsx:159-176 | The due dates start at the stored next due date, and each is exactly one frequency step after the one before. The final next due date is one step after the last due date. |
| Recurring.DueDatesIncreasing | App.tsx:169-175 | Due dates strictly increase, by at least a day per step. This is why the loop terminates. |
| Recurring.DueDatesInRange | App.tsx:159 | Every due date lies between the stored next due date and the bound. |
| Recurring.GeneratedFrom | App.tsx:157-168 | The k-th generated entry carries the k-th minted id. It copies amount, category, description and type from one definition, and its date is one of that definition's due dates, no later than the bound. |
| Recurring.EntriesForFrom | App.tsx:161-168 | The entries of one definition carry consecutive ids and copy that definition's data at its due dates. |
| Recurring.EntriesAtFrom | App.tsx:161-168 | Entry k of a date list is the entry for date k under id `base + k`. |
| Recurring.AdvancedUnchanged | App.tsx:154-159 | A definition comes back unchanged iff it was not due, and then it generates nothing. Every next due date ends after the bound. |
| Recurring.AdvancedAll | App.tsx:154 | The updated list has the same length as the input. |
| Recurring.GeneratedNoneDue | App.tsx:159 | Definitions none of which is due generate no entries. |
| Recurring.SecondPassIdle | App.tsx:159 | A second pass on the pass's own output with the same bound generates nothing, changes no definition and finds nothing due. |
| Recurring.WeeklyCatchUp | App.tsx:159-176 | A weekly definition last due three weeks ago yields four entries, the last one today, and its next due date rests one week after today. |
| Recurring.WeeklyStep | App.tsx:171 | A weekly step is exactly seven days. |
| Recurring.DueDatesStep | App.tsx:159-176 | One loop iteration takes the current next due date off the front of the remaining due dates and keeps the final one. |
| Recurring.EntriesGrow | App.tsx:161-168 | Pushing one entry extends the generated list by the entry for the next due date under the next id. |
| Recurring.DueDates | App.tsx:159-176 | No contract of its own: the dates the inner loop visits. Recurring.DueDatesChain and Recurring.DueDatesInRange prove they start at the stored next due date, step by one frequency each and stay within the bound. |
| Recurring.Generated | App.tsx:157-168 | No contract of its own: the entries of the whole pass, definition by definition. Recurring.GeneratedFrom proves each one carries its minted id and copies the fields of the definition it came from. |
| Recurring.Advanced | App.tsx:176 | No contract of its own: a definition with its next due date caught up. Recurring.AdvancedUnchanged proves it is unchanged iff it was not due, and that its next due date ends past the bound. |
| Schedule.AdvanceBy | App.tsx:169-175 | Each step moves the time value by a whole number of days and keeps the time of day. That number is 1 for daily and for the fallback, 7 for weekly, the length of the current month for monthly, and the length of the year passed through for yearly. |
| Schedule.AdvanceIncreases | App.tsx:169-175 | Every step moves at least one day forward. |
| Schedule.AdvanceMonthBy | App.tsx:172 | `setMonth(getMonth() + 1)` adds the current month's length in days. |
| Schedule.AdvanceYearBy | App.tsx:173 | `setFullYear(getFullYear() + 1)` adds the length of the year the step passes through. |
| Schedule.AdvanceOnCreate | App.tsx:233-239 | The step taken when an entry is added agrees with the pass's step for the four recurring frequencies. With no frequency it moves nothing (the `switch` has no default). |
| Schedule.StepDays | App.tsx:169-175 | Every step is at least one day long. |
| Schedule.MonthEndRollsOver | App.tsx:172 | 31 January plus one month reads as 3 March, or 2 March in a leap year. |
| Schedule.LeapDayRollsOver | App.tsx:173 | 29 February plus one year reads as 1 March of the following year. |
| Schedule.MonthStep | App.tsx:172 | Moving a valid date into the next month adds the length of its month. |
| Schedule.YearStep | App.tsx:173 | Moving a valid date into the next year adds the length of the year passed through. |
| Schedule.ShiftByDays | App.tsx:170-171 | Moving a time value by whole days keeps its time of day. |
| Schedule.CivilOfMakeDate | App.tsx:158 | A valid date at a time of day reads back as that date and time. |
| Schedule.AfterLeapYear | App.tsx:173 | The year after a leap year is a common year. |
| Schedule.Advance | App.tsx:169-175 | No contract of its own: the `switch` on the frequency. Schedule.AdvanceBy gives the whole number of days each case moves, and Schedule.AdvanceIncreases proves every case moves forward. |
| Calendar.SetDateShift | App.tsx:170-171 | `setDate(getDate() + k)` moves the time value by exactly k days. |
| Calendar.StartOfDay | components/Dashboard.tsx:18 | `setHours(0, 0, 0, 0)` is the midnight of the same day. |
| Calendar.EndOfDay | App.tsx:152 | `setHours(23, 59, 59, 999)` is the last millisecond of the same day. |
| Calendar.CivilOfMakeDay | App.tsx:172-173 | The date of the day made from a valid year, month and date is that date. |
| Calendar.CivilOfDay | App.tsx:172-173 | The year, month and date of a day are a valid date whose day is that day. |
| Calendar.DayFromYearClosedForm | App.tsx:173 | The year-by-year day count of a year's start equals the ECMA-262 closed form. |
| Calendar.DayFromYearMonotone | App.tsx:173 | Later years start on later days. |
| Calendar.YearUnique | App.tsx:173 | A day lies in exactly one year. |
| Calendar.TimeWithinDay | App.tsx:158-176 | A time value is its day times the day length plus a time of day within the day. |
| Calendar.MakeDay | App.tsx:172-173 | No contract of its own: ECMA-262 MakeDay, with months out of range carried into the year. Calendar.CivilOfMakeDay proves a valid date reads back from its day. |
| Calendar.SetDate | App.tsx:170-171 | No contract of its own: `setDate`. Calendar.SetDateShift proves that adding k to the date moves the time value by exactly k days. |
| Calendar.SetMonth | App.tsx:172 | No contract of its own: `setMonth`. Schedule.AdvanceMonthBy proves that the next month is the current month's length in days later. |
| Calendar.SetFullYear | App.tsx:173 | No contract of its own: `setFullYear`. Schedule.AdvanceYearBy proves that the next year is the length of the year passed through later. |
| Calendar.SetHours | App.tsx:152 | No contract of its own: `setHours`. Calendar.StartOfDay and Calendar.EndOfDay prove the two settings used give the first and the last millisecond of the same day. |
| App.AppState.HandleAddTransaction | App.tsx:228-254 | It appends exactly one entry under the new id. It appends one definition iff a frequency was chosen. It closes the add view back to the return view. |
| App.DefinitionFor | App.tsx:232-251 | No definition for a one-off entry, and one otherwise. |
| App.DefinitionForSchedule | App.tsx:240-249 | The new definition copies the entry's data and starts on the entry's date. It is next due exactly one frequency step later, so a pass on that day generates nothing for it. |
| App.AppState.HandleUpdateTransaction | App.tsx:256-260 | Every entry with the updated id is replaced and the rest are kept in place. The selection is cleared and the view returns. |
| App.AppState.HandleUpdateRecurring | App.tsx:262-266 | The same, for recurring definitions. |
| App.AppState.HandleDeleteTransaction | App.tsx:268-272 | Exactly the entries with other ids remain. The selection is cleared and the view returns. |
| App.AppState.HandleDeleteRecurring | App.tsx:274-280 | Exactly the definitions with other ids remain. The editor closes and returns only when the definition being edited was removed. |
| App.ReplaceById | App.tsx:257 | The length is kept. Records with the id become the update and all others are unchanged in place. |
| App.RemoveById | App.tsx:269 | A record remains iff it was there and has another id. |
| App.ReplaceUnique | App.tsx:257 | With unique ids, an update is a point update of the record's position and keeps the ids unique. |
| App.RemoveUnique | App.tsx:269 | With unique ids, a delete cuts out exactly that record and keeps the order of the rest. |
| App.ReplaceAbsent | App.tsx:257 | Updating an id that is not there changes nothing. |
| App.ReplaceIdempotent | App.tsx:257 | Applying the same update twice is applying it once. |
| App.RemoveAfterReplace | App.tsx:257-269 | Deleting after an update of the same id is deleting outright. |
| App.NavigateStep | App.tsx:50-55 | The requested view is shown. The return view is recorded iff the move is from an ordinary view into a modal one. |
| App.BackStep | App.tsx:143-145 | Going back shows the return view. |
| App.NavigateKeepsBackOrdinary | App.tsx:46-55 | The return view is never modal, so going back never lands on a modal view. |
| App.ModalRoundTrip | App.tsx:46-55 | Opening a modal view from an ordinary one, moving through any modal views, and going back lands on the ordinary view the first modal was opened from. |
| App.ModalChain | App.tsx:50-55 | Moving between modal views keeps the return view. |
| App.IsModalView | App.tsx:46-48 | No contract of its own: the five modal views. App.NavigateStep and App.NavigateKeepsBackOrdinary prove a return view is recorded only when entering one of them, and is never one of them. |
| App.AppState.constructor | App.tsx:29-42 | The initial state: dashboard shown and returned to, empty lists, nothing selected. |
| App.AppState.NavigateTo | App.tsx:50-55 | The state follows `NavigateStep`, and nothing else changes. |
| App.AppState.HandleBack | App.tsx:143-145 | The state follows `BackStep`, and the view shown is not modal. |
| App.AppState.HandleSelectTransaction | App.tsx:282-285 | It selects the entry and opens the editor as `navigateTo` does. |
| App.AppState.HandleSelectRecurring | App.tsx:287-290 | It selects the definition and opens its editor as `navigateTo` does. |
| App.AppState.NavigateToAdd | App.tsx:292-295 | It sets the subscription flag and opens the add view as `navigateTo` does. |
| Dashboard.Stats | components/Dashboard.tsx:37-81 | Income is the sum of the included income entries. Expense is the sum of the included entries of the other kind. Balance is their difference. |
| Dashboard.IncludeTestMatches | components/Dashboard.tsx:40-66 | The test as written selects exactly the entries of the timeframe: the same day, the same Sunday-to-Saturday week (both ends inclusive), the same month of the same year, or the same year. |
| Dashboard.WeekWindow | components/Dashboard.tsx:26-32 | The week runs from Sunday midnight to the last millisecond of the following Saturday. |
| Dashboard.WeekWindowMatches | components/Dashboard.tsx:51-54 | A date lies within the week bounds iff its day is in this Sunday-started week. |
| Dashboard.WeekStartDay | components/Dashboard.tsx:23-27 | The week starts on a Sunday, at most six days before today. |
| Dashboard.WeekSteps | components/Dashboard.tsx:26-32 | The setter steps give the Sunday's midnight and a bound seven days later, less one millisecond. |
| Dashboard.MidnightShift | components/Dashboard.tsx:27-28 | Moving a midnight by k days with `setDate` and setting midnight lands k days on. |
| Dashboard.WeekEnd | components/Dashboard.tsx:31-32 | Six days on from the week's start, the last millisecond ends the week. |
| Dashboard.TotalsPartition | components/Dashboard.tsx:68-74 | Every amount counts towards exactly one of the two totals. |
| Dashboard.TotalSnoc | components/Dashboard.tsx:68-74 | One more entry adds its amount to its own kind's total only. |
| Dashboard.IncludedSnoc | components/Dashboard.tsx:43-74 | One more entry changes a total by its amount iff it is included and of that kind. |
| Dashboard.StatsOfNothing | components/Dashboard.tsx:34-35 | With no entries, income and expense are zero. |
| Dashboard.RecentPrefix | components/Dashboard.tsx:84-86 | The recent list is a prefix of the entries sorted newest first. |
| Dashboard.RecentFive | components/Dashboard.tsx:84-86 | The recent list holds min(5, n) entries drawn from the input, newest first. Every entry it leaves out is no newer than any it shows. |
| Dashboard.IncludeTest | components/Dashboard.tsx:43-66 | No contract of its own: the `switch` on the timeframe. Dashboard.IncludeTestMatches proves it selects exactly the entries of the chosen day, week, month or year. |
| Dashboard.RecentTransactions | components/Dashboard.tsx:84-86 | No contract of its own: sort newest first and keep five. Dashboard.RecentFive proves it holds min(5, n) input entries, newest first, none older than one it leaves out. |
| History.FilteredIsSortedSelection | components/TransactionHistory.tsx:30-45 | The list shown holds exactly the matching entries, each as often as in the input, ordered by date or amount in the chosen direction. |
| History.FilteredIsStable | components/TransactionHistory.tsx:36-44 | Entries the comparator finds equal keep their relative order. |
| History.ComparatorMatchesValue | components/TransactionHistory.tsx:36-44 | The comparator orders as the sort value does, and descending is the exact negation of ascending. |
| History.EmptyTermKeepsAll | components/TransactionHistory.tsx:32-35 | The empty search keeps every entry. |
| History.ContainsLowered | components/TransactionHistory.tsx:33-34 | A term found in a text is still found after both are lower-cased. |
| History.Lower | components/TransactionHistory.tsx:33 | Lower-casing keeps the length and maps each character separately. |
| History.LowerIdempotent | components/TransactionHistory.tsx:33-34 | Lower-casing twice is lower-casing once, and it leaves no capitals. |
| History.FilteredTransactions | components/TransactionHistory.tsx:30-45 | No contract of its own: filter, then sort. History.FilteredIsSortedSelection proves it holds exactly the matching entries, each as often as in the input, in the chosen order. |
| History.Matches | components/TransactionHistory.tsx:32-35 | No contract of its own: the term occurs in the lower-cased description or category. History.EmptyTermKeepsAll proves the empty term matches every entry. |
| History.Comparator | components/TransactionHistory.tsx:36-44 | No contract of its own: the difference of dates or amounts, negated for descending. History.ComparatorMatchesValue proves it orders as the sort value does. |
| History.GroupTransactions | components/TransactionHistory.tsx:47-60 | The amount sort gives one "All Transactions" group holding the whole list. The date sort gives one group per month, in order of first appearance, each holding that month's entries in list order. |
| History.GroupsPartition | components/TransactionHistory.tsx:52-58 | Each entry lies in exactly one month group, its own, and each group keeps the list's sort order. |
| History.GroupOrderDistinct | components/TransactionHistory.tsx:56 | No month is listed twice. |
| History.GroupOrderCovers | components/TransactionHistory.tsx:53-57 | The month of every entry is listed. |
| History.GroupOrderSound | components/TransactionHistory.tsx:53-57 | Only months that have entries are listed. |
| History.MembersSnoc | components/TransactionHistory.tsx:57 | One more entry joins the end of its own group and no other. |
| History.MembersUnseen | components/TransactionHistory.tsx:56 | A month not yet seen has no members. |
| History.SortStep | components/TransactionHistory.tsx:21-28 | The clicked key becomes the active key. |
| History.SortStepTwice | components/TransactionHistory.tsx:21-28 | Clicking the active key flips its direction, and twice restores it. Another key becomes active descending, and a second click makes it ascending. |
| History.HistoryState.constructor | components/TransactionHistory.tsx:13-15 | It starts with no search, sorted by date, newest first. |
| History.HistoryState.HandleSort | components/TransactionHistory.tsx:21-28 | The sort state follows `SortStep`, and the search is kept. |
| Sorting.SortBy | components/TransactionHistory.tsx:36 | The sort is sorted and a permutation of its input. |
| Sorting.SortStable | components/TransactionHistory.tsx:36 | For every key, the elements with that key keep their order (a stable `Array.prototype.sort`). |
| Sorting.SortSorted | components/TransactionHistory.tsx:36 | A sorted list comes back unchanged. |
| Sorting.SortedPrefixLeast | components/Dashboard.tsx:84-86 | A prefix of a sorted list holds elements no greater than anything left out. |
| Sorting.Insert | components/TransactionHistory.tsx:36 | Insertion adds exactly one element. |
| Sorting.InsertSorted | components/TransactionHistory.tsx:36 | Inserting into a sorted list keeps it sorted. |
| Sorting.InsertWithKey | components/TransactionHistory.tsx:36 | Insertion places the new element after the equal keys already placed. |
| Sorting.FilterSorted | components/TransactionHistory.tsx:52-58 | Any filtered part of a sorted list is sorted. |
| Lists.Filter | App.tsx:269 | The result is no longer than the input and holds only elements that pass. |
| Lists.FilterMember | App.tsx:269 | An element is kept iff it is in the input and passes. |
| Lists.FilterAppend | App.tsx:269 | Filtering a concatenation filters each part, so order is kept. |
| Lists.FilterCount | components/TransactionHistory.tsx:32 | Each kept element occurs as often as in the input. |
| Lists.FilterAll | components/TransactionHistory.tsx:32 | A list every element of which passes is returned whole. |
| Lists.FilterNone | components/Budget.tsx:27 | A list no element of which passes filters to nothing. |
| Lists.FilterIdempotent | components/Settings.tsx:61 | Filtering twice is filtering once. |
| Lists.FilterLength | components/Settings.tsx:61 | The result is shorter by the number of elements that fail. |
| Lists.FilterCut | App.tsx:269 | Filtering out the one failing element cuts it out of the list. |
| Subscriptions.Stats | components/Subscriptions.tsx:17-34 | Monthly is the sum of the monthly equivalents and yearly is twelve times it. No definitions give zero for both. |
| Subscriptions.MonthlyCostScales | components/Subscriptions.tsx:22-28 | A yearly definition costs a twelfth of its amount a month and a monthly one its amount. No cost is negative for a non-negative amount. |
| Subscriptions.IncomeNotCounted | components/Subscriptions.tsx:13-15 | An income definition changes neither the listed definitions nor the totals. |
| Subscriptions.ExpenseSubsExact | components/Subscriptions.tsx:13-15 | A definition is listed iff it is an expense definition of the input. |
| Subscriptions.MonthlyTotalAppend | components/Subscriptions.tsx:21-31 | Costs add up over concatenation. |
| Subscriptions.CeilDiv | components/Subscriptions.tsx:46 | `Math.ceil(a / b)` is the least integer r with a <= r·b. |
| Subscriptions.DaysUntilIsDayDifference | components/Subscriptions.tsx:40-48 | The days until a date are the difference of the day numbers: zero iff today, negative iff in the past. |
| Subscriptions.ExpenseSubs | components/Subscriptions.tsx:13-15 | No contract of its own: the expense definitions. Subscriptions.ExpenseSubsExact proves a definition is kept iff it is an expense. |
| Subscriptions.MonthlyCost | components/Subscriptions.tsx:22-28 | No contract of its own: the monthly share of one definition. Subscriptions.MonthlyCostScales proves a yearly amount is spread over twelve months and a monthly one is kept. |
| Subscriptions.DaysUntil | components/Subscriptions.tsx:40-48 | No contract of its own: `getDaysUntil`. Subscriptions.DaysUntilIsDayDifference proves it is the difference of the two calendar days. |
| Budget.BudgetEditor.HandleLimitChange | components/Budget.tsx:25-30 | The new limits are the old ones with the category's entries filtered out, followed by the new limit when it is positive. |
| Budget.BudgetEditor.constructor | components/Budget.tsx:17 | The working copy starts as the stored limits. |
| Budget.ChangeEffect | components/Budget.tsx:25-30 | Every old entry of the category goes and every other entry stays, in order. The category has exactly one entry, with the new value, when that value is positive, and none otherwise. |
| Budget.ChangeKeepsUnique | components/Budget.tsx:27-28 | Unique categories stay unique. |
| Budget.FilterUniquePreserved | components/Budget.tsx:27 | Filtering keeps categories unique. |
| Budget.GetLimit | components/Budget.tsx:32-34 | The result is decided by the first entry for the category, as `find` does: its limit when that is non-zero, none (the empty field) when it is zero. With no entry for the category the result is none. |
| Budget.GetLimitSkips | components/Budget.tsx:33 | `find` passes over entries for other categories. |
| Budget.ChangeThenGet | components/Budget.tsx:25-34 | Reading a category back after editing it gives the new positive value, or nothing. |
| Budget.LimitsAfterChange | components/Budget.tsx:25-30 | No contract of its own: the new list of limits. Budget.ChangeEffect proves the other categories' entries are kept in order and the edited category holds one entry with the new value when that is positive. |
| Budget.NumValue | components/Budget.tsx:26 | No contract of its own: the parsed number, or 0 when the text does not parse. Budget.ChangeThenGet proves the limit read back is that number when positive and none otherwise. |
| Settings.AddCategoryEffect | components/Settings.tsx:53-57 | A blank or already listed trimmed name changes nothing. Any other name is appended trimmed after the unchanged list. |
| Settings.AddBlank | components/Settings.tsx:54 | A whitespace-only name adds nothing. |
| Settings.AddKeepsNoDuplicates | components/Settings.tsx:54-55 | Adding keeps the list free of duplicates. |
| Settings.AddIdempotent | components/Settings.tsx:54-55 | Adding the same name twice is adding it once. |
| Settings.DeleteCategoryEffect | components/Settings.tsx:59-63 | A confirmed delete keeps exactly the other names, each as often as before (Settings.DeleteKeepsOrder and Settings.DeleteDistributes prove the order). An unconfirmed one changes nothing. |
| Settings.AddThenDelete | components/Settings.tsx:53-63 | Deleting a name just added restores the list. |
| Settings.DeleteDistributes | components/Settings.tsx:61 | Deleting from a joined list joins what each part keeps, so the kept names stay in order. |
| Settings.DeleteKeepsOrder | components/Settings.tsx:61 | In a list holding the name once, a confirmed delete removes that entry and leaves the names before and after it in order. |
| Settings.AddCategory | components/Settings.tsx:53-57 | No contract of its own: `handleAddCategory`. Settings.AddCategoryEffect proves it appends the trimmed name when that is new and non-blank, and changes nothing otherwise. |
| Settings.DeleteCategory | components/Settings.tsx:59-63 | No contract of its own: `handleDeleteCategory`. Settings.DeleteCategoryEffect, Settings.DeleteDistributes and Settings.DeleteKeepsOrder prove a confirmed delete keeps exactly the other names, in order. |
| Text.Trim | components/Settings.tsx:54 | The result is the input with only white space removed around it, and it neither starts nor ends with white space. |
| Text.TrimStart | components/Settings.tsx:54 | Only leading white space is removed. |
| Text.TrimEnd | components/Settings.tsx:54 | Only trailing white space is removed. |
| Text.TrimIdempotent | components/EditSubscription.tsx:28 | Trimming twice is trimming once. |
| Text.TrimBlank | components/AddTransaction.tsx:38 | A string trims to nothing iff it is all white space. |
| Text.PaddedBetween | components/Settings.tsx:54 | Cutting a white-space prefix and then a white-space suffix leaves the middle of the string. |
| Text.NatStringValue | components/AddTransaction.tsx:20 | Reading the digits of `String(n)` gives n back. |
| Text.NatString | components/AddTransaction.tsx:20 | `String(n)` is a non-empty digit run with no leading zero. |
| Text.NatStringLength | components/AddTransaction.tsx:20 | Numbers below 10 have one digit; numbers from 10 to 99 have two. |
| Text.NatStringBelow | components/AddTransaction.tsx:20 | A number below 10^k has at most k digits. |
| Text.PadStart | components/AddTransaction.tsx:20 | Padding reaches the requested length or keeps a longer string. |
| Text.PadStartValue | components/AddTransaction.tsx:20 | Zero padding keeps a digit run of the same value. |
| Text.LeadingZero | components/AddTransaction.tsx:20 | A leading zero leaves a digit run's value unchanged. |
| Text.Split | components/AddTransaction.tsx:32 | `split` always yields at least one piece. |
| Text.SplitNone | components/EditTransaction.tsx:18 | A string without the separator is one piece. |
| Text.SplitFirst | components/AddTransaction.tsx:32 | A separator-free first piece is split off whole. |
| Text.FirstPiece | components/EditTransaction.tsx:18 | The first piece is everything before the first separator. |
| Text.DigitChar | components/AddTransaction.tsx:20 | A digit value maps to a digit character. |
| AddTransactionForm.HandleSubmit | components/AddTransaction.tsx:25-45 | Nothing is submitted iff the amount is empty or the date field names no valid date. Income is filed under "Income". The description is trimmed, or is the category when blank. The date is local noon of the chosen day, and the frequency is passed through. |
| AddTransactionForm.SubmitOnDefaultDate | components/AddTransaction.tsx:18-33 | With the default date, the entry is filed at 12:00 on today's calendar date. |
| AddTransactionForm.SubmittedDescription | components/AddTransaction.tsx:38 | The submitted description is never blank and carries no surrounding white space when the category carries none. |
| DateStrings.DefaultDateRoundTrip | components/AddTransaction.tsx:18-33 | Splitting today's default string on '-' gives back today's year, month and day, and building the date gives noon of today. |
| DateStrings.DefaultDateFields | components/AddTransaction.tsx:20-32 | From 1970 on, the default string reads back as today's fields. |
| DateStrings.FieldsOfCivil | components/AddTransaction.tsx:20-32 | A valid date written as year, padded month and padded day reads back as its fields. |
| DateStrings.DateFieldsOfThree | components/AddTransaction.tsx:32 | Three digit runs joined by dashes read back as their values. |
| DateStrings.SplitThree | components/AddTransaction.tsx:32 | Three digit runs joined by dashes split back into the three runs. |
| DateStrings.Pad2Value | components/AddTransaction.tsx:20 | A padded field is a digit run of the number's value, two characters long below 100. |
| DateStrings.YearAfterEpoch | components/AddTransaction.tsx:20 | Every day from 1 January 1970 on lies in 1970 or later. |
| DateStrings.DigitsLackChar | components/AddTransaction.tsx:32 | A digit run contains no non-digit separator. |
| DateStrings.FullYear | components/AddTransaction.tsx:33 | The `Date` constructor reads a year from 0 to 99 as 1900 to 1999. |
| DateStrings.TimeClip | components/AddTransaction.tsx:33-41 | A time value is valid iff its magnitude is at most 8.64e15 ms. |
| DateStrings.DatePrefixIsIsoDate | components/EditTransaction.tsx:18 | `toISOString().split('T')[0]` is exactly the `YYYY-MM-DD` date part. |
| DateStrings.IsoDateLacksT | components/EditTransaction.tsx:18 | The date part of an ISO string has no 'T'. |
| DateStrings.IsoYearLacksT | components/EditTransaction.tsx:18 | The year field of an ISO string has no 'T'. |
| DateStrings.DateFromFields | components/EditTransaction.tsx:30 | A date-only string yields a date only for a month from 1 to 12 and a day from 1 to 31. |
| DateStrings.IsoDateRoundTrip | components/EditTransaction.tsx:18-30 | A date part re-parses as the midnight of its own day, which writes the same date part. |
| DateStrings.IsoDateFields | components/EditTransaction.tsx:30 | The written fields of a date in years 0 to 9999 parse back as that date's midnight. |
| DateStrings.ParseShortForm | components/EditTransaction.tsx:30 | A four-digit year, two-digit month and two-digit day parse field by field. |
| DateStrings.MidnightInRange | components/EditTransaction.tsx:30 | The midnight of a valid time value is valid. |
| DateStrings.DatePrefixKept | components/EditTransaction.tsx:18-30 | An untouched date field parses to the stored day's midnight and shows the same prefix again. |
| DateStrings.DefaultDateString | components/AddTransaction.tsx:18-21 | No contract of its own: today's date as year-month-day. DateStrings.DefaultDateRoundTrip proves it parses back to today's date. |
| DateStrings.NoonOf | components/AddTransaction.tsx:32-33 | No contract of its own: local noon of the typed date. DateStrings.DefaultDateRoundTrip proves the default date gives noon of today. |
| DateStrings.ParseDateOnly | components/EditTransaction.tsx:30 | No contract of its own: `new Date` of a date-only text, read as UTC midnight. DateStrings.IsoDateRoundTrip proves it inverts the date part of `toISOString`. |
| DateStrings.DatePrefix | components/EditTransaction.tsx:18 | No contract of its own: the text before the `T`. DateStrings.DatePrefixIsIsoDate proves it is the whole date part of `toISOString`. |
| DateStrings.IsoString | components/EditTransaction.tsx:30 | No contract of its own: `toISOString`. DateStrings.IsoDateLacksT proves its date part holds no `T`, so splitting at the first `T` finds it. |
| EditTransactionForm.HandleSubmit | components/EditTransaction.tsx:20-32 | Nothing is submitted iff the amount or the description is empty or the date is invalid. The id is kept, and income is filed under "Income". |
| EditTransactionForm.UnchangedDateKept | components/EditTransaction.tsx:18-30 | Re-submitting an untouched date moves the entry to its own day's midnight. The calendar date and the shown prefix are unchanged. |
| EditTransactionForm.InitialDate | components/EditTransaction.tsx:18 | No contract of its own: the date field's starting text. EditTransactionForm.UnchangedDateKept proves submitting it unchanged keeps the stored calendar date, moved to its midnight. |
| EditSubscriptionForm.HandleSubmit | components/EditSubscription.tsx:20-33 | Nothing is submitted iff the amount is NaN, the trimmed description is empty, or the due date is invalid. Id, type and start date are kept, and the description is stored trimmed. |
| EditSubscriptionForm.UnchangedDueKept | components/EditSubscription.tsx:18-31 | Re-submitting an untouched due date keeps its calendar date and prefix, and the stored description stays trimmed. |
| EditSubscriptionForm.InitialDue | components/EditSubscription.tsx:18 | No contract of its own: the due-date field's starting text. EditSubscriptionForm.UnchangedDueKept proves submitting it unchanged keeps the stored calendar date, moved to its midnight. |
| EditSubscriptionForm.FrequencyOptions | components/EditSubscription.tsx:41-46 | The offered frequencies are exactly the four recurring ones, never "None". |
| Colors.GetCategoryColor | constants.ts:39-49 | A category in the fixed table gets its fixed colour. Any other gets the palette entry at the absolute hash modulo 9. The result is always a table or palette colour. |
| Colors.HashIsPolynomial | constants.ts:43-46 | The wrapped hash is congruent modulo 2^32 to the polynomial hash 31·h + code over the UTF-16 code units. |
| Colors.StepCongruent | constants.ts:45 | One step `code + ((hash << 5) - hash)` is 31·hash + code modulo 2^32. |
| Colors.Step | constants.ts:45 | No contract of its own: one hash step in 32-bit arithmetic. Colors.StepCongruent proves it agrees with `31 * hash + code` modulo 2^32. |
| Colors.HashOf | constants.ts:43-46 | No contract of its own: the hash loop over the code units. Colors.HashIsPolynomial proves it agrees with the base-31 polynomial modulo 2^32. |
| Colors.ToInt32 | constants.ts:45 | ToInt32 yields a signed 32-bit value congruent to its argument. |
| Colors.PaletteIndex | constants.ts:48 | The palette index lies in [0, 9), and a zero hash picks entry 0. |
| Colors.Utf16 | constants.ts:44-45 | One character gives one code unit, or a surrogate pair above U+FFFF. |
| Colors.CodeUnits | constants.ts:44 | A string has between one and two code units per character. |
| Colors.DefaultsHaveFixedColors | constants.ts:4-25 | Every default category, and "Income", has a fixed colour, and the palette has nine entries. |
| Colors.EmptyCategoryColor | constants.ts:43-48 | The empty category hashes to 0 and takes the first palette entry. |
| Colors.LookupAsWritten | constants.ts:40 | As written, the lookup yields an inherited member iff the category is not in the table but is a key of `Object.prototype`. |
| Colors.ConstructorGetsNoColour | constants.ts:40 | A category named "constructor" gets `Object.prototype.constructor` back instead of a colour. |

## Left out

- Storage, cloud sync and authentication (`services/storageService.ts`, `services/firebase.ts`, `App.tsx:58-87,182-211`) are not part of this model. They are I/O.
- `services/geminiService.ts` and `sw.js` are not part of this model. They are a network call and service-worker caching.
- JSX rendering, the bottom navigation, and the swipe and scroll gestures (`App.tsx:89-141,213-226`) are left out. They are UI events and pixel thresholds.
- The wall clock is a parameter (`clock`, `now`).
- Time zones, daylight saving and the UTC shift of `toISOString` are left out: one fixed zone with no offset is assumed. As a result, the model cannot show a date moving by a day between local noon and UTC midnight.
- Stored ISO strings are time values. Only `toISOString` for the date prefix and the date-only form of the string parser are modelled as text.
- `crypto.randomUUID` is the parameter `mintId` or an id argument. Ids are assumed fresh.
- JavaScript numbers are exact reals: rounding of sums and of the 30.42, 4.34 and 1/12 factors is not modelled. `parseFloat` is a parameter.
- `AddTransactionForm.HandleSubmit` and `EditTransactionForm.HandleSubmit`: a NaN amount (for example "abc") is submitted as NaN by the source. The model takes the parsed amount as a real and does not represent NaN there.
- `Number()` on a date field is modelled for digit runs only. A non-digit field gives no date: the source yields NaN, and `toISOString` throws.
- `DateStrings.ParseDateOnly` accepts only the `YYYY-MM-DD` and `±YYYYYY-MM-DD` forms that the date input produces. Other formats the `Date` parser accepts are not modelled.
- `MakeDay` returning NaN for non-finite or absurd years is not modelled. Only the TimeClip range check is.
- `DateStrings.IsoDateRoundTrip`, `DateStrings.DatePrefixKept`, `EditTransactionForm.UnchangedDateKept` and `EditSubscriptionForm.UnchangedDueKept` are proved for years 0 to 9999 only. Six-digit years are written and parsed but not proved to round-trip.
- `DateStrings.DefaultDateRoundTrip` and `AddTransactionForm.SubmitOnDefaultDate` are proved for clocks from 1970 up to about 270,000 years later only.
- `toLowerCase` folds only the Latin capitals A to Z. Other Unicode case mappings are not modelled.
- `Intl.NumberFormat` and the `toLocaleString` month labels are left out: a month group is keyed by (year, month) instead of its label.
- `confirm` dialogs are a boolean parameter. `alert`, `setTimeout` and the settings input clearing after an add are left out.
- components/Analytics.tsx and components/AiAdvisor.tsx are not part of this model; the multi-period trend views they hold are not modelled.
- The `View` enum in `types.ts` lacks `SUBSCRIPTIONS` and `EDIT_SUBSCRIPTION`, which `App.tsx` uses. The model's `View` includes them.
- `Category.INCOME`, imported by `components/EditTransaction.tsx`, is not exported by `types.ts`. It is modelled as the label "Income" that `components/AddTransaction.tsx:29` uses.

## Findings

| source | as written | input that shows it | evidently intended | confidence | as-written member | corrected member |
|---|---|---|---|---|---|---|
| constants.ts:40 | `if (FIXED_COLORS[category])` looks up inherited keys too: a category named like an `Object.prototype` member finds that member, which is truthy, and it is returned as the colour | a category named "constructor", which the settings screen accepts | only own keys of the table give fixed colours; every other name is hashed into the palette | high, not executed | Colors.ConstructorGetsNoColour | Colors.GetCategoryColor |
