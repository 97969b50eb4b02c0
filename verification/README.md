# Expense tracker core, modelled in Dafny

This project models the four pieces of pure logic inside a personal income and
expense tracker. It proves what each piece promises.

- **History** (`History` module). The history page groups the user's
  transactions into one bucket per calendar (year, month) as it walks them. It
  turns each bucket into a month summary: month name, year, transactions,
  income total, expense total and balance. It then sorts the summaries newest
  month first. The bucket key is the text `${year}-${month}`, which is split
  back into numbers, and it is modelled too.
- **Monthly summary** (`MonthlySummary` module). The filter keeps the
  transactions of the month under a cursor, and their totals are computed. The
  cursor starts at today's month. "Previous" moves it back one month with no
  limit. "Next" moves it forward one month only while it is strictly before
  today's month.
- **Adding a transaction** (`TransactionForm` module). The description and
  category are trimmed, and a category that trims to nothing becomes absent.
  The schema's rules are checked in field order and the first broken one is
  reported. On success a row with today's date is inserted, the inputs are
  cleared and the caller refreshes once.
- **Deleting a transaction** (`TransactionList` module). A row can be deleted
  only when it is dated today. The delete button is shown exactly for those
  rows. A successful store delete triggers one refresh; a failure reports an
  error and changes nothing.

Shared pieces:

- `Calendar`: months as (year, 0-based month) pairs laid out on the integer
  line.
- `Ledger`: the transaction record, the order-keeping filter, amount sums and
  the income / expense / balance totals.
- `Feedback`: toasts and the store's reply.
- `Wrappers`: `Option` and `Result`.

The clock, the signed-in user, `parseFloat` and the store's reply are
parameters. Amounts are exact `real`s. Months are numbered 0 to 11, as
`Date.prototype.getMonth` numbers them.

## Model

| member | source | states |
|---|---|---|
| History.FindBucket | src/pages/History.tsx:56-59 | the lookup finds the bucket whose key is the transaction's month, or reports that no bucket has that key |
| History.PushKeepsGroups | src/pages/History.tsx:53-60 | one step of the grouping loop keeps the grouping invariant: one bucket per month, each bucket is exactly its month's transactions in input order, no bucket is empty, every month seen has a bucket, and the buckets hold the input seen so far as a multiset |
| History.GroupByMonthPartitions | src/pages/History.tsx:52-60 | after the loop over the whole input, the grouping invariant holds for the whole input |
| History.IndexOf | src/pages/History.tsx:91 | `indexOf` yields the first position holding the value, and -1 exactly when the value is absent |
| History.MonthNameIndex | src/pages/History.tsx:79-91 | looking up month `m`'s name in the name table gives back `m`, so the comparator sees the bucket's month number |
| History.SummarizeFaithful | src/pages/History.tsx:66-86 | a summary carries its bucket's month name, which maps back to the bucket's month, and its year and transactions; its income and expense figures are the sums of the "income" and "expense" amounts; its balance is income minus expenses and equals the net cash flow |
| History.CompareIsRecency | src/pages/History.tsx:89-92 | the comparator is negative exactly when the first group is a later month, and zero exactly when both stand for the same month |
| History.Insert | src/pages/History.tsx:89-92 | inserting a group into a list yields the list plus that group, as a multiset |
| History.SortGroups | src/pages/History.tsx:89-92 | the sort returns a permutation of its input |
| History.SortNewestFirst | src/pages/History.tsx:89-92 | given groups for distinct months, the sorted list has every group strictly later than every group after it |
| History.NewestFirstUnique | src/pages/History.tsx:89-92 | two newest-first arrangements of the same groups are the same list, so the result does not depend on the sorting algorithm |
| History.SortExample | src/pages/History.tsx:89-92 | groups for December 2024, January 2025 and January 2024 sort as January 2025, December 2024, January 2024 |
| History.HistoryGroupsAreMonths | src/pages/History.tsx:51-86 | every group on the page names a real month; it holds exactly the transactions of its (year, month) in input order; it is not empty; its figures are that list's totals; balance is income minus expenses |
| History.HistoryGroupsByMonth | src/pages/History.tsx:54-59 | a transaction is in a group exactly when its year and month are the group's, whatever its day |
| History.HistoryCoversEveryMonth | src/pages/History.tsx:53-60 | every transaction's month has a group on the page |
| History.HistoryPartitions | src/pages/History.tsx:53-66 | the groups' transactions together are the input as a multiset, so each transaction is in exactly one group, and the group sizes add up to the input length |
| History.HistoryNewestFirst | src/pages/History.tsx:89-92 | the page lists months strictly newest first, with no month twice |
| History.HistoryOrderIsForced | src/pages/History.tsx:89-92 | any newest-first arrangement of the month summaries is exactly the page's list |
| History.HistoryFiguresAddUp | src/pages/History.tsx:70-76 | the groups' income figures add up to the income total of all transactions, and likewise for expenses |
| History.HistoryEmptyExactlyWhenNoTransactions | src/pages/History.tsx:53-66 | the page has no groups exactly when there are no transactions |
| History.DigitsRoundTrip | src/pages/History.tsx:67 | `Number` applied to a non-negative integer's decimal text gives the integer back |
| History.DecodeMonthKey | src/pages/History.tsx:55-67 | splitting the key `${year}-${month}` on "-" and reading both pieces as numbers recovers the year and month |
| History.MonthKeyInjective | src/pages/History.tsx:55 | two months share a key exactly when they are the same month |
| History.KeySign | src/pages/History.tsx:55 | a key starts with a minus sign exactly when its year is negative |
| History.DecodeDigitsKey | src/pages/History.tsx:67 | splitting the text "digits-dash-digits" on "-" and reading both pieces as numbers gives back both numbers |
| History.SplitWithoutDash | src/pages/History.tsx:67 | splitting a string of digits on "-" gives the string itself as the only piece |
| History.SplitAtFirstDash | src/pages/History.tsx:67 | splitting "digits, dash, rest" on "-" gives the digits followed by the pieces of the rest |
| History.NatToString | src/pages/History.tsx:55 | a non-negative number's decimal text is non-empty and all digits; `History.DigitsRoundTrip` states that it reads back as the number |
| History.IntToString | src/pages/History.tsx:55 | no contract of its own: a negative year is written as a minus sign and its magnitude's digits; `History.KeySign` and `History.MonthKeyInjective` state what this gives the key |
| History.NumberOf | src/pages/History.tsx:67 | no contract of its own: `Number` applied to a piece of a split key; `History.DigitsRoundTrip` and `History.DecodeDigitsKey` state that digit text reads back as its value |
| History.MonthKey | src/pages/History.tsx:55 | no contract of its own: the grouping key of a month; `History.MonthKeyInjective` states that distinct months get distinct keys, and `History.DecodeMonthKey` that the key decodes to the year and month |
| History.SplitOnDash | src/pages/History.tsx:67 | splitting on "-" gives at least one piece; `History.SplitWithoutDash` and `History.SplitAtFirstDash` state which pieces |
| History.DecodeKey | src/pages/History.tsx:67 | no contract of its own: the key split on "-" and its first two pieces read as numbers; `History.DecodeMonthKey` states that it recovers the month a key was built from |
| History.SummaryMatchesDecodedKey | src/pages/History.tsx:66-79 | for a year of 0 or later, the year and month read back from the bucket's key are the summary's year and the position of its month name |
| History.NegativeYearKeyMisread | src/pages/History.tsx:55-67 | the key of April of year -5 is "-5-3", and it reads back as year 0 and month 5 |
| History.Push | src/pages/History.tsx:54-59 | no contract of its own: one step of the grouping loop; `History.PushKeepsGroups` states that it keeps the grouping invariant |
| History.GroupByMonth | src/pages/History.tsx:52-60 | no contract of its own: the grouping loop over the whole input; `History.GroupByMonthPartitions` states that its buckets are the input's months, each holding exactly its month's transactions in order |
| History.Summarize | src/pages/History.tsx:66-86 | no contract of its own: one month's summary; `History.SummarizeFaithful` states its name, year, transactions and figures |
| History.Summaries | src/pages/History.tsx:66-86 | there is one summary per bucket, in bucket order, and each is that bucket's summary; `History.SummarizeFaithful` states what a summary holds |
| History.Compare | src/pages/History.tsx:89-92 | no contract of its own: the sort's comparator; `History.CompareIsRecency` states that it orders groups newest first and is zero exactly for the same month |
| History.HistoryOf | src/pages/History.tsx:51-92 | no contract of its own: the whole page's computation; `History.HistoryGroupsAreMonths`, `History.HistoryPartitions`, `History.HistoryNewestFirst` and the other `History.History*` lemmas state what the page shows |
| Ledger.Filter | src/components/MonthlySummary.tsx:22-25 | the filter keeps only entries of the input that pass the test, keeps every one that does, and is never longer than the input |
| Ledger.FilterSelectsInOrder | src/components/MonthlySummary.tsx:22-25 | the filter's k-th entry is the input entry at the k-th passing position, so input order is kept |
| Ledger.FilterConcat | src/pages/History.tsx:70-71 | filtering two lists joined is joining their filtered lists |
| Ledger.SumAmountsConcat | src/pages/History.tsx:72 | the amount sum of two lists joined is the sum of their sums |
| Ledger.TotalsSnoc | src/pages/History.tsx:70-76 | one more transaction moves only its own type's total, by its amount; a transaction of any other type changes no figure |
| Ledger.BalanceIsNetFlow | src/pages/History.tsx:84 | the balance is income minus expenses and equals the entry-by-entry net cash flow |
| Ledger.TotalsConcat | src/pages/History.tsx:70-76 | the totals of two lists joined are the sums of their totals |
| Ledger.FilteredSumPermutation | src/pages/History.tsx:70-76 | the amount sum over the entries that pass a test depends only on which entries the list holds, not on their order |
| Ledger.TotalsPermutation | src/pages/History.tsx:70-76 | lists holding the same transactions in any order have the same totals |
| Ledger.MonthlyTransactions | src/components/MonthlySummary.tsx:22-25 | the filtered list holds a transaction exactly when it is in the input and its year and month are the cursor's |
| Ledger.MonthlySnoc | src/components/MonthlySummary.tsx:22-25 | one more transaction extends the filtered list by itself exactly when it falls in the cursor's month |
| Ledger.MonthlyEmptyIffAbsent | src/components/MonthlySummary.tsx:22-25 | the filtered list is empty exactly when no transaction falls in the cursor's month |
| Ledger.SumAmounts | src/pages/History.tsx:72 | no contract of its own: the amounts added front to back from zero; `Ledger.SumAmountsConcat` and `Ledger.FilteredSumPermutation` state how it behaves |
| Ledger.ComputeTotals | src/pages/History.tsx:70-84 | no contract of its own: income, expenses and balance of a list; `Ledger.TotalsSnoc`, `Ledger.BalanceIsNetFlow`, `Ledger.TotalsConcat` and `Ledger.TotalsPermutation` state what the figures are |
| Calendar.BeforeIsOrdinalOrder | src/components/MonthlySummary.tsx:33-34 | the guard's "earlier year, or same year and earlier month" test is exactly the order of months on the integer line |
| Calendar.OrdinalInjective | src/components/MonthlySummary.tsx:33-34 | two months sit at the same place on the integer line exactly when they are equal |
| Calendar.MonthBoundary | src/components/MonthlySummary.tsx:22-25 | a month's last day and the next month's first day lie in different months, the first strictly earlier |
| MonthlySummary.MonthlyFilterExact | src/components/MonthlySummary.tsx:22-25 | the filtered list is the input entries at the positions whose month is the cursor's, in increasing position order |
| MonthlySummary.MonthBoundarySeparates | src/components/MonthlySummary.tsx:22-25 | a transaction dated the last day of a month and one dated the first day of the next month are never in the same filtered list |
| MonthlySummary.MonthlyTotals | src/components/MonthlySummary.tsx:45-53 | no contract of its own: the totals of the month's transactions; `MonthlySummary.MonthlyBalance` and `MonthlySummary.OtherMonthIgnored` state what they are |
| MonthlySummary.MonthlyBalance | src/components/MonthlySummary.tsx:45-53 | the month's balance is its income minus its expenses, and equals its net cash flow |
| MonthlySummary.OtherMonthIgnored | src/components/MonthlySummary.tsx:22-51 | a transaction from another month changes none of the month's figures |
| MonthlySummary.IncomeAndExpenseExample | src/components/MonthlySummary.tsx:45-53 | one income of 1000.00 and one expense of 250.50 in the month give income 1000.00, expenses 250.50 and balance 749.50 |
| MonthlySummary.InitialCursor | src/components/MonthlySummary.tsx:17-20 | no contract of its own: the cursor starts at today's (year, month); `MonthlySummary.InitialCursorNeverInFuture` states that it is never later than today's month |
| MonthlySummary.IsCurrentMonth | src/components/MonthlySummary.tsx:39-40 | no contract of its own: the current-month flag; `MonthlySummary.IsCurrentMonthIsToday` states that it holds exactly at today's month |
| MonthlySummary.PreviousMonth | src/components/MonthlySummary.tsx:27-29 | "previous" moves the cursor exactly one month back, so January of Y becomes December of Y-1 |
| MonthlySummary.NextMonth | src/components/MonthlySummary.tsx:31-37 | "next" moves the cursor exactly one month forward when it is strictly before today's month and leaves it unchanged otherwise; a cursor not after today's month stays not after it |
| MonthlySummary.IsCurrentMonthIsToday | src/components/MonthlySummary.tsx:39-40 | the current-month flag holds exactly when the cursor is today's (year, month) |
| MonthlySummary.NextIsNoOpExactlyAtCurrentMonth | src/components/MonthlySummary.tsx:31-40 | for a cursor not in the future, "next" changes nothing exactly when the cursor is the current month |
| MonthlySummary.PreviousAlwaysMoves | src/components/MonthlySummary.tsx:27-29 | "previous" always changes the cursor |
| MonthlySummary.NextUndoesPrevious | src/components/MonthlySummary.tsx:27-37 | for a cursor not in the future, "previous" then "next" returns to the start |
| MonthlySummary.CursorNeverInFuture | src/components/MonthlySummary.tsx:27-37 | from a cursor not in the future, any sequence of presses under a fixed or advancing clock leaves the cursor no later than the latest today's month |
| MonthlySummary.InitialCursorNeverInFuture | src/components/MonthlySummary.tsx:17-37 | the cursor starts at today's month, and no sequence of presses under a fixed or advancing clock takes it past today's month |
| MonthlySummary.JsMonthStart | src/components/MonthlySummary.tsx:28 | `new Date(year, monthIndex, 1)` lands `monthIndex` months after January of the year, where a year from 0 to 99 counts as 1900 plus that year |
| MonthlySummary.PreviousMonthAsWritten | src/components/MonthlySummary.tsx:28 | no contract of its own: "previous" exactly as the code computes it; `MonthlySummary.AsWrittenAgreesOutsideTwoDigitYears` and `MonthlySummary.PreviousMonthAsWrittenJumpsForward` state where it agrees with and departs from the one-month move |
| MonthlySummary.NextMonthAsWritten | src/components/MonthlySummary.tsx:31-37 | no contract of its own: "next" exactly as the code computes it; `MonthlySummary.AsWrittenAgreesOutsideTwoDigitYears` and `MonthlySummary.NextMonthAsWrittenLeavesPresent` state where it agrees with and departs from the one-month move |
| MonthlySummary.AsWrittenAgreesOutsideTwoDigitYears | src/components/MonthlySummary.tsx:27-37 | outside the years 0 to 99 the moves as written are the one-month moves |
| MonthlySummary.PreviousMonthAsWrittenJumpsForward | src/components/MonthlySummary.tsx:28 | as written, "previous" from December of year 99 lands in November 1999, later than where it started; the one-month move gives November 99 |
| MonthlySummary.NextMonthAsWrittenLeavesPresent | src/components/MonthlySummary.tsx:33-35 | as written, "next" from December 99 lands in January 2000 where the one-month move gives January 100; with today in January of year 100, a clock `new Date()` does not give, that is past today's month |
| MonthlySummary.AsWrittenStaysInPresent | src/components/MonthlySummary.tsx:27-37 | under a clock in the year 2000 or later, "previous" and "next" as written keep a cursor that is not after today's month not after it |
| MonthlySummary.CursorAsWrittenNeverInFuture | src/components/MonthlySummary.tsx:27-37 | from a cursor not in the future, any sequence of presses of the moves as written, under a clock that starts in 2000 or later and never goes backwards, leaves the cursor no later than the latest today's month |
| MonthlySummary.InitialCursorAsWrittenNeverInFuture | src/components/MonthlySummary.tsx:17-37 | the cursor starts at today's month, and under a clock from 2000 on that never goes backwards no sequence of presses of the moves as written takes it past today's month |
| TransactionForm.IsWhitespace | src/components/AddTransactionForm.tsx:34-35 | no contract of its own: the characters `String.prototype.trim` removes (ECMAScript white space and line terminators); `TransactionForm.Trim` states what trimming keeps |
| TransactionForm.SkipLeading | src/components/AddTransactionForm.tsx:34 | the scan stops at the first character that is not white space, and everything it skipped is white space |
| TransactionForm.SkipTrailing | src/components/AddTransactionForm.tsx:34 | the backward scan stops after the last character that is not white space, and everything it skipped is white space |
| TransactionForm.Trim | src/components/AddTransactionForm.tsx:34-35 | the trimmed text is no longer than the input, neither starts nor ends with white space, and is empty exactly when the input is all white space |
| TransactionForm.TrimSlice | src/components/AddTransactionForm.tsx:34-35 | the trimmed text is the slice of the input after its leading white space, and everything cut off on either side is white space |
| TransactionForm.TrimIdempotent | src/components/AddTransactionForm.tsx:34 | trimming a trimmed text changes nothing |
| TransactionForm.NormalizeCategory | src/components/AddTransactionForm.tsx:35 | the category is absent exactly when it is all white space; otherwise it is its trimmed, non-empty text |
| TransactionForm.Violates | src/components/AddTransactionForm.tsx:10-14 | no contract of its own: each schema rule on its own; `TransactionForm.Validate` states that the first broken rule in checking order is reported |
| TransactionForm.ErrorMessage | src/components/AddTransactionForm.tsx:11-13 | no contract of its own: each rule's message, custom or the validator's default; `TransactionForm.Submit` states that a validation failure shows its rule's message |
| TransactionForm.Prepare | src/components/AddTransactionForm.tsx:32-36 | no contract of its own: the input handed to the schema, with the description trimmed and the category normalised; `TransactionForm.Validate`, `TransactionForm.BlankDescriptionRefused` and `TransactionForm.BlankCategoryAbsent` state how it is judged |
| TransactionForm.SchemaOf | src/components/AddTransactionForm.tsx:32-36 | no contract of its own: the schema input built from the form's three text fields; `TransactionForm.SentRowsAreValid` states what a row built from it satisfies |
| TransactionForm.Validate | src/components/AddTransactionForm.tsx:10-14 | the schema fails with a rule the input breaks and every rule earlier in checking order holds; it succeeds exactly when no rule is broken, and then carries the input's values |
| TransactionForm.AmountBounds | src/components/AddTransactionForm.tsx:11 | an amount of zero or below is refused as not positive; 999999999.99 is accepted; 1000000000.00 is refused as too large |
| TransactionForm.BlankDescriptionRefused | src/components/AddTransactionForm.tsx:12 | an all-white-space description is refused as missing whenever the amount is acceptable |
| TransactionForm.LongDescriptionRefused | src/components/AddTransactionForm.tsx:12 | a description longer than 200 characters once trimmed is refused as too long whenever the amount is acceptable |
| TransactionForm.BlankCategoryAbsent | src/components/AddTransactionForm.tsx:35 | an all-white-space category becomes absent and never breaks the category rule |
| TransactionForm.TrimFood | src/components/AddTransactionForm.tsx:35 | "  Food  " trims to "Food" |
| TransactionForm.CategoryExamples | src/components/AddTransactionForm.tsx:35 | the category "  Food  " is kept as "Food" and "   " becomes absent |
| TransactionForm.Submit | src/components/AddTransactionForm.tsx:27-65 | a row is sent exactly when validation succeeds and a user is signed in, and it carries the user, the type, the validated values and today's date. A validation failure shows its first rule's message, and no user shows "Not authenticated". A failed insert shows the store's message or "Failed to add transaction". The caller refreshes at most once, and exactly when the insert succeeds; then the inputs are cleared and the success toast shown. Otherwise the inputs are unchanged and an error is shown |
| TransactionForm.SentRowsAreValid | src/components/AddTransactionForm.tsx:32-48 | every row sent to the store has a positive amount within the maximum, a trimmed description of 1 to 200 characters, a category of 1 to 100 characters if any, and today's date |
| TransactionList.Deletable | src/components/TransactionList.tsx:25 | no contract of its own: a row is deletable when its date is today's; `TransactionList.Listing`, `TransactionList.HandleDelete` and `TransactionList.OtherDaysProtected` state what this guards |
| TransactionList.Listing | src/components/TransactionList.tsx:50-71 | the listing shows every transaction once in the given order, with a delete button exactly on rows dated today |
| TransactionList.RemoveById | src/components/TransactionList.tsx:31 | after the delete, the store holds exactly the rows whose id differs from the deleted one |
| TransactionList.HandleDelete | src/components/TransactionList.tsx:22-38 | a row not dated today is refused with "You can only delete today's transactions", and the store is not called and not changed. Otherwise the store is called. The caller refreshes at most once, and exactly when the delete succeeds; then the row's id is gone and "Transaction deleted" is shown. Otherwise nothing changes and the store's message or "Failed to delete transaction" is shown |
| TransactionList.DeleteFromListing | src/components/TransactionList.tsx:22-71 | a row that shows a delete button is dated today, and a successful delete of it refreshes once and leaves the other rows in their order without it |
| TransactionList.OtherDaysProtected | src/components/TransactionList.tsx:25-71 | a row dated another day shows no delete button, and a delete request for it never reaches the store, changes nothing and triggers no refresh |
| Feedback.MessageOr | src/components/TransactionList.tsx:36 | an error's own message is shown when it is not empty, and the fallback text otherwise |

## Left out

- The hosted store and sign-in: the select, insert and delete calls and `getUser` are not modelled. Only their outcome is, as a `StoreReply` parameter and an optional user id.
- React state, effects, rendering, routing and the toast library are not modelled. A toast is modelled as its kind and its text, and `onSuccess`/`onDelete` as a refresh count.
- `src/pages/Index.tsx` only wires the components to the store and is not part of this model.
- Floating-point summation and `toFixed(2)`: amounts are exact `real`s, so rounding drift is out of scope.
- Date strings, `new Date(...)` parsing, time zones and `toISOString` are not modelled. Dates are decoded (year, month, day) triples and "today" is a parameter. Comparing two `YYYY-MM-DD` strings is modelled as equality of the decoded dates.
- `parseFloat` is a parameter that returns `None` for NaN. `Infinity` and the string-to-number rules are not modelled.
- The validator's internals are not modelled. Only its rules and its first-issue order are, with its default messages for rules that have no custom message. Lengths count characters, not UTF-16 code units.
- The database query sorts rows by date, newest first. The proofs hold for the transactions in any order, so that ordering is not modelled.
- The grouping object is modelled as a list of (month, members) buckets, not as a string-keyed map. The list keeps the object's key order. A month's bucket is added at the end the first time the month appears, and `Object.keys` lists keys that are not array indices in the same first-insertion order. `History.HistoryOrderIsForced` shows that the page order does not depend on it.
- History.DecodeMonthKey, History.Summarize and History.HistoryGroupsAreMonths: the key is read back correctly for years 0 and later only. The text of a negative year starts with "-", so splitting on "-" misreads it (`History.NegativeYearKeyMisread`: April of year -5 reads back as June of year 0). `Summarize` takes the year and month from the bucket's month instead of from its decoded key; the two agree for years 0 and later (`History.SummaryMatchesDecodedKey`). For a negative year the page as written would show another month, and the model does not follow it. Four-digit dates never produce such a year. `History.MonthKeyInjective` covers every year, negative ones included.
- The ECMAScript `Date` range limit (plus or minus 8.64e15 ms) is not modelled: years are unbounded integers.
- The sign-in check: the component reports a missing user as the "Not authenticated" error and does not redirect. The model follows the component.
- The page-level loading flags and `console.error` logging are not modelled.

## Findings

| source | as written | input that shows it | evidently intended | confidence | as-written member | corrected member |
|---|---|---|---|---|---|---|
| src/components/MonthlySummary.tsx:28 | "previous" builds `new Date(selectedYear, selectedMonth - 1, 1)`, and that constructor reads years 0 to 99 as 1900 to 1999 | cursor at December of year 99: "previous" goes to November 1999, a later month | move back exactly one calendar month | not executed | MonthlySummary.PreviousMonthAsWrittenJumpsForward | MonthlySummary.PreviousMonth |
| src/components/MonthlySummary.tsx:35 | "next" builds `new Date(selectedYear, selectedMonth + 1, 1)` with the same two-digit-year rule | cursor at December of year 99, which "previous" reaches from the present: "next" goes to January 2000 instead of January 100, 1900 years forward. It passes today's month only under a clock set before the year 2000, such as January of year 100; under a clock from 2000 on the moves as written never do (`MonthlySummary.CursorAsWrittenNeverInFuture`) | move forward exactly one calendar month | not executed | MonthlySummary.NextMonthAsWrittenLeavesPresent | MonthlySummary.NextMonth |
