# Tu Control Financiero — a verified model of the ledger logic

Tu Control Financiero is a single-page monthly budget tracker. The user picks a month and sets a
budget for it. They record expenses and incomes in guaraníes (a currency with no minor unit,
so amounts are integers), edit or delete entries, and export the month as a semicolon-separated
file. This project models the non-visual logic of `src/App.tsx` in Dafny and proves what it does:

- **Text** (`text.dfy`): the JavaScript string operations the component relies on:
  `trim`, `replaceAll` of one character, `split`/`join` on one character, `String(n)`, and `Number(s)`
  on strings of digits.
- **Ledger** (`ledger.dfy`): the transaction record. It also has the three list operations
  the component applies to a month's list: `find` by id, the `map` that overwrites edited entries,
  and the `filter` that deletes them.
- **Totals** (`totals.dfy`): `spent`, `income`, `available = max(0, budget - spent + income)`
  and the net `income - spent`.
- **Months** (`months.dfy`): `prevYM` and `nextYM`. Both go through `new Date(y, m, 1)`,
  including that constructor's reading of years 0–99 as 1900–1999. They exist on month values
  and on the `YYYY-MM` text.
- **CsvExport** (`csv_export.dfy`): the rows and the text that `exportCSV` builds
  (`RowsAsWritten`, `CsvAsWritten`), and a corrected export that also cleans `;` out of
  the category (`CorrectedRows`, `CorrectedCsv`; see "## Findings").
- **Tracker** (`tracker.dfy`): the component's state as a class `App`. Its fields are the
  active month, the budget, the list, the entry form and the saved store. There is one
  method per action: `submitTx`, `editTx`, `deleteTx`, `resetForm`, `saveBudget`, month
  navigation, and the effect that loads a month.

The saved store is `localStorage`. The model holds it as two maps keyed by month, one for
lists and one for budgets. The class invariant says the list on screen is the list saved
for the active month.

Three behaviours of the code are easy to misread:

- `saveBudget` stores `Number(budget) || 0`, which for a number is the budget itself. A
  negative budget is stored as is and is not coerced to 0.
- `submitTx` puts a new entry in front of the list, not at its end.
- The available amount is `budget - spent + income`: income is added back to the budget
  before the result is floored at zero.

## Model

| member | source | states |
|---|---|---|
| Text.Trim | src/App.tsx:99 | `desc.trim()` neither starts nor ends with JavaScript white space |
| Text.TrimSlice | src/App.tsx:90 | the trimmed text is one contiguous slice of the input, and everything dropped on either side is white space |
| Text.TrimIdempotent | src/App.tsx:90 | trimming an already trimmed description changes nothing |
| Text.ReplaceChar | src/App.tsx:148 | `replaceAll(";", ",")` keeps the length, turns every `;` into `,`, leaves every other character in place, and leaves no `;` |
| Text.Split | src/App.tsx:22 | `split("-")` always yields at least one piece |
| Text.SplitJoin | src/App.tsx:151 | splitting a joined list on its separator gives the list back when no piece holds the separator |
| Text.JoinWithout | src/App.tsx:151 | joining adds no character other than the separator |
| Text.NatToDecimal | src/App.tsx:146 | `String(n)` of a non-negative integer is a non-empty digit string with no leading zero |
| Text.IntToDecimal | src/App.tsx:146 | `String(amount)` is digits, with a leading minus sign exactly when the amount is negative, and the digits after the sign read back as the amount's magnitude |
| Text.DecimalRoundTrip | src/App.tsx:22 | `Number(String(n)) == n` for every non-negative integer |
| Text.NumberOf | src/App.tsx:22 | `Number(part)` is a non-negative number exactly when the part is all digits (the empty part reads as 0); otherwise NaN |
| Ledger.NewTx | src/App.tsx:95-102 | a new entry carries the fresh id, the form's type, amount, date and category, and the trimmed description |
| Ledger.Overwrite | src/App.tsx:90 | an edited entry keeps its id and takes every other field from the form, with the description trimmed |
| Ledger.Find | src/App.tsx:109 | `find` returns nothing exactly when no entry has the id; otherwise it returns the first entry with that id |
| Ledger.ReplaceById | src/App.tsx:88-92 | the edit keeps length and order; each entry with the edited id is overwritten and every other entry is untouched |
| Ledger.ReplaceUnknownId | src/App.tsx:88-92 | an edit whose id is in no entry leaves the list unchanged |
| Ledger.ReplaceKeepsIds | src/App.tsx:88-92 | an edit keeps every id in its position, so distinct ids stay distinct |
| Ledger.ReplaceKeepsAccepted | src/App.tsx:82-93 | overwriting with a validated form keeps every amount positive and every date non-empty |
| Ledger.PrependFresh | src/App.tsx:95-103 | putting an entry with a fresh id in front keeps the ids distinct |
| Ledger.RemoveById | src/App.tsx:121 | the filter keeps exactly the entries whose id differs from the deleted one |
| Ledger.RemoveByIdAppend | src/App.tsx:121 | the filter distributes over concatenation, so the kept entries stay in their order |
| Ledger.RemoveUnknownId | src/App.tsx:119-122 | deleting an id that no entry has leaves the list unchanged |
| Ledger.RemoveOnly | src/App.tsx:121 | deleting an id that only one entry carries removes that entry and nothing else |
| Ledger.RemoveAt | src/App.tsx:121 | with distinct ids, deleting entry k's id gives `txs[..k] + txs[k+1..]` |
| Ledger.RemoveKeepsDistinct | src/App.tsx:121 | deleting keeps ids distinct |
| Ledger.RemoveKeepsAccepted | src/App.tsx:121 | deleting keeps every remaining entry validated |
| Totals.SumAmounts | src/App.tsx:126 | `reduce((s, t) => s + t.amount, 0)` is 0 for no entries and, when every amount is positive, at least the number of entries |
| Totals.OfKind | src/App.tsx:126 | the filter by type keeps exactly the entries of that type |
| Totals.TotalOf | src/App.tsx:125-132 | a month's total of one type is 0 when no entry has that type, and never negative when every amount passed validation |
| Totals.TotalSpent | src/App.tsx:125-128 | `spent` is never negative for validated entries, and 0 for a month with only incomes |
| Totals.TotalIncome | src/App.tsx:129-132 | `income` is never negative for validated entries, and 0 for a month with only expenses |
| Totals.SumOfKind | src/App.tsx:126 | the sum of the filtered list equals the sum of each entry's share of that type |
| Totals.SpentPlusIncome | src/App.tsx:125-132 | spent + income equals the sum of all amounts |
| Totals.TotalAppend | src/App.tsx:125-132 | the total of a concatenation is the sum of the totals of its parts |
| Totals.Prepend | src/App.tsx:125-132 | a new entry in front adds its amount to its own type's total and nothing to the other |
| Totals.Delete | src/App.tsx:119-132 | with distinct ids, deleting entry k takes its amount off its own type's total |
| Totals.Available | src/App.tsx:133 | available is never negative, and equals budget - spent + income whenever that is non-negative |
| Totals.AvailableIsBudgetPlusNet | src/App.tsx:133-134 | available is the budget plus the net, floored at zero |
| Totals.AvailableMoves | src/App.tsx:133 | recording an expense never raises the available amount; recording an income never lowers it |
| Totals.Net | src/App.tsx:134 | `pygNeto = income - spent` equals the entry-by-entry balance, an independent definition in which incomes count up and expenses down |
| Months.FirstOfMonth | src/App.tsx:23 | `new Date(y, i, 1)` gives a month in 1..12, exactly i months after January of the constructor's full year |
| Months.Prev | src/App.tsx:21-25 | prevYM's month is valid, one month before the input's month, and of a non-negative year when the input's is |
| Months.Next | src/App.tsx:26-30 | nextYM's month is valid, one month after the input's month, and of a non-negative year when the input's is |
| Months.PrevStep | src/App.tsx:21-25 | outside years 0–99, January steps back to December of the previous year; any other month steps back by one |
| Months.NextStep | src/App.tsx:26-30 | outside years 0–99, December steps forward to January of the next year; any other month steps forward by one |
| Months.NextOfPrev | src/App.tsx:21-30 | nextYM(prevYM(m)) == m for years from 101 up and for negative years |
| Months.PrevOfNext | src/App.tsx:21-30 | prevYM(nextYM(m)) == m for years from 100 up and below -1 |
| Months.TwoDigitYears | src/App.tsx:23 | inside years 0–99 the Date constructor's 1900 offset makes the step jump a century |
| Months.StepsMove | src/App.tsx:165-167 | a step always changes the month, so the month-loading effect always runs |
| Months.IndexInjective | src/App.tsx:21-30 | two valid months with the same running month count are equal |
| Months.TwoDigits | src/App.tsx:24 | `padStart(2, "0")` of a month gives two digits that read back as the month |
| Months.Format | src/App.tsx:24 | the month's text ends with `-` and the two padded digits of the month, and starts with `-` exactly for a negative year |
| Months.Parse | src/App.tsx:22 | `split("-").map(Number)` gives NaN for text with no `-`, and otherwise non-negative numbers when it reads at all |
| Months.PrevText | src/App.tsx:21-25 | prevYM on text: unreadable text gives "NaN-NaN"; readable text gives well-formed text that reads back as the Date constructor's month before |
| Months.NextText | src/App.tsx:26-30 | nextYM on text: unreadable text gives "NaN-NaN"; readable text gives well-formed text that reads back as the Date constructor's month after |
| Months.ParseFormat | src/App.tsx:22 | splitting and reading a formatted month of a non-negative year gives back the year and month |
| Months.TextSteps | src/App.tsx:21-30 | on the `YYYY-MM` text, prevYM and nextYM agree with Prev and Next |
| Months.TextRoundTrips | src/App.tsx:21-30 | on the text of any month from year 101 up, nextYM(prevYM(s)) == s and prevYM(nextYM(s)) == s |
| CsvExport.KindLabel | src/App.tsx:145 | the type column is "Gasto" exactly for expenses |
| CsvExport.CategoryOrDefault | src/App.tsx:147 | `category \|\| "General"` is never empty and keeps a non-empty category |
| CsvExport.AmountText | src/App.tsx:146 | `String(t.amount)` holds neither `;` nor a line break |
| CsvExport.Clean | src/App.tsx:148 | `replaceAll(";", ",")` leaves no `;` and adds no line break |
| CsvExport.RowAsWritten | src/App.tsx:143-149 | the row as the code writes it has five fields, and the description field holds no `;` |
| CsvExport.SemicolonInCategory | src/App.tsx:147 | a category with a `;` makes the written row split into six fields |
| CsvExport.RowsAsWritten | src/App.tsx:138-150 | the rows exportCSV builds: `\|txs\| + 1` rows, row 0 the header, row i the written row of `txs[\|txs\| - i]`, each with five fields and no `;` in the description |
| CsvExport.Lines | src/App.tsx:151 | line i is row i joined with `;` |
| CsvExport.CsvAsWritten | src/App.tsx:137-151 | the text exportCSV builds starts with the header line, and is the header line alone for a month with no entries |
| CsvExport.HeaderLine | src/App.tsx:139 | the header line has no line break and splits back into the five column names |
| CsvExport.RowAgrees | src/App.tsx:143-149 | a written row whose category holds no `;` equals the corrected row |
| CsvExport.CsvAgrees | src/App.tsx:137-151 | while no category holds a `;`, the written rows and text equal the corrected ones |
| CsvExport.CsvAsWrittenRoundTrip | src/App.tsx:137-151 | when no date or category holds `;` and no field a line break, the exported text splits into `\|txs\| + 1` lines and each line into its written row |
| CsvExport.CorrectedRow | src/App.tsx:143-149 | the corrected row, with the category cleaned like the description, has five fields, and none except the date holds a `;` |
| CsvExport.CorrectedRowRoundTrip | src/App.tsx:151 | a corrected row joined with `;` splits back into its five fields |
| CsvExport.CorrectedRows | src/App.tsx:138-150 | the corrected export has `\|txs\| + 1` rows; row 0 is the header and row i is the corrected row of `txs[\|txs\| - i]` |
| CsvExport.CorrectedCsv | src/App.tsx:137-151 | the corrected text starts with the header line, and is the header line alone for a month with no entries |
| CsvExport.CorrectedRowLine | src/App.tsx:151 | a single-line entry's corrected line has no line break and splits back into its row |
| CsvExport.CorrectedLineRoundTrip | src/App.tsx:151 | every line of the corrected export has no line break and splits back into its row |
| CsvExport.CorrectedCsvRoundTrip | src/App.tsx:137-151 | splitting the corrected text on line breaks gives `\|txs\| + 1` lines, and each line splits on `;` into its row, whatever the categories hold |
| Tracker.Validate | src/App.tsx:82-84 | a submit is saved exactly when the amount is a positive number and the date is non-empty; the amount is checked first |
| Tracker.StoredTxs | src/App.tsx:56-57 | a month's list is what the store holds for it, and [] for a month never saved |
| Tracker.StoredBudget | src/App.tsx:53 | a month's budget is what the store holds for it, and 0 for a month never saved |
| Tracker.SaveThenLoad | src/App.tsx:70-79 | a month loads back exactly the list and budget last saved under it, and saving under one month changes what no other month loads |
| Tracker.IsEditing | src/App.tsx:86 | `if (editingId)` is false exactly for a null id and for the empty id |
| Tracker.SavedList | src/App.tsx:86-103 | a saved edit keeps the list's length and every id in its place; a saved new entry is the new record in front of the unchanged old list |
| Tracker.SavedListKeeps | src/App.tsx:86-103 | saving a validated form keeps every entry validated and, with a fresh id, keeps ids distinct |
| Tracker.App.constructor | src/App.tsx:37-59 | on mount, the active month's budget (0 if absent) and list ([] if absent) are loaded and the form is reset |
| Tracker.App.ResetForm | src/App.tsx:61-68 | after resetForm nobody is being edited, the type is expense, the amount and description are empty, the date is today and the category is "General"; nothing else changes |
| Tracker.App.PersistTxs | src/App.tsx:76-79 | the new list is shown and saved under the active month; nothing else changes |
| Tracker.App.LoadMonth | src/App.tsx:52-59 | the month's budget and list come from the store (0 and [] when absent) and the form is reset |
| Tracker.App.PreviousMonth | src/App.tsx:165 | the active month becomes Prev of the old one, which always differs from it and whose text is prevYM of the old month's text; that month is loaded |
| Tracker.App.NextMonth | src/App.tsx:167 | the active month becomes Next of the old one, which always differs from it and whose text is nextYM of the old month's text; that month is loaded |
| Tracker.App.SaveBudget | src/App.tsx:70-74 | the budget is saved under the active month unchanged (a negative one too); nothing else changes |
| Tracker.App.Submit | src/App.tsx:81-106 | an invalid amount or date changes nothing; a valid edit overwrites the edited id's entries; a valid new entry gives `[tx] + old`; the list is saved and the form reset; positive amounts, non-empty dates and distinct ids are preserved |
| Tracker.App.Edit | src/App.tsx:108-118 | the first entry with the id is loaded into the form, with an empty category shown as "General"; an unknown id changes nothing |
| Tracker.App.Delete | src/App.tsx:119-122 | a declined confirmation changes nothing; a confirmed one removes exactly the entries with the id, saves the list, and preserves validated entries and distinct ids |

## Left out

- Rendering, JSX and inline styles (src/App.tsx:159-316) are presentation. The input
  handlers are plain field assignments, so a caller sets `App`'s form fields directly.
- JSON encoding of the saved values is left out; the store holds the values themselves. A
  store that is full or unavailable is not modelled, because the code does not handle that case.
- `crypto.randomUUID` is a parameter of `Submit`. The method requires that the parameter is not
  an id already in the list.
- `alert`, `confirm` and `window.scrollTo` are UI effects. An alert is the `InvalidAmount` or
  `InvalidDate` outcome, and the confirmation is a boolean parameter of `Delete`.
- The Blob, the object URL and the download click are DOM effects. The model stops at the
  exported text, `CsvExport.CsvAsWritten`.
- The clock is a parameter. `ymToday` is the month passed to the constructor, and today's date
  is passed to the methods that reset the form. That the date picker cannot go past today is
  not modelled.
- `formatPYG` and `toLocaleString` are locale formatting and are left out.
- Text.NumberOf: `Number` also accepts white space, signs, fractions, exponents and hex. The
  model reads only digit strings and counts every other part as NaN. The month text these
  functions receive is always the model's own `YYYY-MM` output.
- Text.IntToDecimal: `String` of a number of 10^21 or more uses exponent notation. The model
  prints every integer in full.
- Amounts are integers. Floating point, NaN from a bad number input, and the Date range
  limit of ±275760 years are not modelled.
- Months.NextOfPrev is stated for years from 101 up and below 0 only: from January of year
  100 the step back lands in year 99, which the Date constructor reads as 1999.
- Months.PrevOfNext is stated for years from 100 up and below -1 only: from December of year
  -1 the step forward lands in year 0, which the Date constructor reads as 1900.
  Months.TwoDigitYears shows the century jump.
- Tracker.App.constructor requires a month of year 0 or later. prevYM and nextYM read a
  leading `-` as an empty year, so the `YYYY-MM` text cannot hold a negative year. A step
  from a year of 0 or later always lands in a year of 0 or later.
- Tracker.App.Submit is stated for `freshId` new to the current month's list only. The code
  never checks ids across months.
- The PIN gate, the global `tcf_tx` list, the percentage-of-budget alerts and the
  clamped `remain` total belong to a second version of the app that is not part of this model.

## Findings

| source | as written | input that shows it | evidently intended | confidence | as-written member | corrected member |
|---|---|---|---|---|---|---|
| src/App.tsx:147 | the exported category is written without replacing `;`, while the description on the next line is cleaned | an entry with category "Comida;Bebida" exports a row that splits into six fields, pushing the description into a sixth column | every free-text field is cleaned of `;`, so each row has exactly five fields | medium, not executed | CsvExport.SemicolonInCategory | CsvExport.CorrectedCsvRoundTrip |
