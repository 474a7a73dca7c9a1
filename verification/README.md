# PocketWise transaction pipeline in Dafny

PocketWise is a browser widget for personal finance. The user records
income and expense transactions, filters and sorts the list, and reads
summary totals and two charts. All of its logic lives in `script.js`, mixed
in with DOM and Chart.js calls. This project models that logic as pure
functions over a sequence of transaction records
`Txn(id, kind, amount, category, date, note)` and proves what the page
promises about them.

Modules, one per concern:

- `Wrappers`: `Option` and `Result`.
- `Seqs`: the order-keeping filter (`Array.prototype.filter`), sums, and facts about subsequences and permutations.
- `Sorting`: a stable insertion sort by an integer key (the page's `Array.prototype.sort` with a numeric comparator). Also sorting into distinct values, for the menus' `Set` + `sort`.
- `Text`: JavaScript's `trim`, ASCII `toLowerCase`, `includes`, `String(n)` for integers below 10^21, and code-point order of strings.
- `Txn`: the record, well-formed `YYYY-MM-DD` dates, and the date order.
- `Store`: the submit handler's validation and append (`Add`), and `deleteTxn` (`Delete`).
- `FilterOptions`: the month and category menus (`refreshFilterOptions`).
- `Query`: the month, category and search filters, then the sort (`renderAll`); `Visible` is the listed result.
- `Stats`: the income, expense and net totals (`computeStats`).
- `Charts`: the expense-per-category pie dataset and the per-month bar dataset (`updateCharts`).
- `Csv`: the export button's CSV text, and a reader for its quoted fields.

Modelling choices:

- Amounts are exact whole numbers of rupees, so `String(amount)` in the search (script.js:330) and the export (script.js:101) is the integer's decimal text for amounts below 10^21. A `NaN` from `parseFloat` is `None` in the submitted `Form`.
- The fresh id is a parameter of `Add`.
- The current month used by the bar chart's fallback is a parameter of `MonthBreakdown`.
- A parseable date is a well-formed `YYYY-MM-DD` text naming a real calendar day. `DateStamp` orders such dates as `new Date(...)` timestamps do, and `Txn.DateOrderIsTextOrder` proves that this order is the code-point order of the texts.
- Every sort is stable, so ties keep the list's order.

## Model

| member | source | states |
|---|---|---|
| Store.RecordedCategory | script.js:65-72 | The recorded category is the trimmed field whenever that is not blank, and `"Income"` for an income whose field is blank. An expense always keeps its trimmed field. The result is empty exactly when an expense has a blank category. |
| Store.Add | script.js:61-74 | Checks run in the page's order. A missing, zero or negative amount gives `InvalidAmount`. Otherwise an empty date gives `MissingDate`. Otherwise an expense whose trimmed category is empty gives `MissingCategory`. Success happens exactly when none of these applies. On success, exactly one record is appended after the unchanged earlier records. It carries the given id, the trimmed category (`"Income"` for an income whose category is blank) and the trimmed note. |
| Store.AddedRecordWellFormed | script.js:65-74 | A record created by a successful submission has a positive amount, a non-empty category and date, and the given id. Its category and note neither start nor end with white space. |
| Store.AddPreservesWellFormed | script.js:69-74 | Adding to a collection of well-formed records keeps every record well-formed. |
| Store.AddPreservesUniqueIds | script.js:74 | With an id not yet in use, the ids after adding stay pairwise distinct and are the old ids plus the new one. |
| Store.Delete | script.js:115 | No record carrying the deleted id remains. |
| Store.DeleteKeepsOthers | script.js:115 | A record is kept exactly when it was present with another id. Each kept record keeps its multiplicity and its order (the result is a subsequence of the store). The ids left are the old ids minus the deleted one. |
| Store.DeleteAbsent | script.js:115 | Deleting an id nobody carries leaves the collection unchanged. |
| Store.DeleteUnique | script.js:115 | In a collection with unique ids, deleting an id in use removes exactly one record. |
| Store.DeletePreservesUniqueIds | script.js:115 | Deleting keeps ids unique. |
| Store.AddThenDelete | script.js:74-115 | When the fresh id was unused, deleting it right after a successful add gives back the original collection. |
| Text.Trim | script.js:65-67 | `trim()` returns the infix of the input that is surrounded only by white space and neither starts nor ends with white space. |
| Text.TrimIdempotent | script.js:65-67 | Trimming twice is the same as trimming once. |
| Text.TrimEmptyIffBlank | script.js:65-71 | A field is empty after trimming exactly when it is all white space. That is the blank-category case of the expense check. |
| Text.Lower | script.js:324-330 | `toLowerCase()` keeps the length, lowers each capital letter and leaves no capital behind. |
| Text.Contains | script.js:327-330 | `includes(q)` holds exactly when `q` occurs in the text at some index. |
| Text.NatTextRoundTrip | script.js:330 | The decimal digits `String(n)` produces for a natural number below 10^21 read back as that number. |
| Text.LowerIntText | script.js:330 | Lower-casing the text of an amount leaves it unchanged. |
| Text.LexLessStrictTotalOrder | script.js:282-296 | The code-point order that the menus' `sort()` and `localeCompare` follow here is a strict total order. |
| Txn.DateStamp | script.js:336 | A well-formed date gets the number `YYYYMMDD`, and exactly the well-formed dates get a non-negative number. Unparseable dates therefore sort below all others. |
| Txn.MonthKeyOrder | script.js:232-241 | Two well-formed dates share a bucket key exactly when they share year and month, and a later date never has a smaller key, so ascending keys are chronological months. |
| Txn.DateStampOrder | script.js:336 | Two well-formed dates compare by year, then month, then day. |
| Txn.DateOrderIsTextOrder | script.js:336 | For well-formed dates, chronological order is code-point order of the date texts, and equal timestamps mean equal texts. |
| FilterOptions.MonthOptions | script.js:282 | The month menu offers exactly the distinct non-empty date prefixes of the first seven characters (fewer for shorter dates) of the collection, in strictly descending order. |
| FilterOptions.CategoryOptions | script.js:293-296 | The category menu offers exactly the default categories together with every non-empty category in use, each once, in strictly ascending order. |
| FilterOptions.MonthKeysMembers | script.js:282 | The non-empty prefixes kept by `filter(Boolean)` are exactly the non-empty prefixes of some record's date. |
| Sorting.InsertionSort | script.js:335-338 | The sort's output is a permutation of its input. |
| Sorting.InsertionSortSorted | script.js:335-338 | The sort's output is ordered by its key. |
| Sorting.InsertionSortStable | script.js:335-338 | The sort is stable: the records sharing a key appear in the output in their input order. |
| Sorting.SortedByKeyUnique | script.js:335-338 | Two permutations of the same records with pairwise distinct keys, both ordered by that key, are equal. |
| Sorting.SortedDistinct | script.js:282-296 | `Array.from(new Set(xs)).sort(...)` holds exactly the elements of `xs`. |
| Sorting.SortedDistinctSorted | script.js:282-296 | Under a strict total order, that result is strictly ascending, so each element occurs once. |
| Seqs.FilterSpec | script.js:115 | `filter` keeps exactly the elements that pass the test, with their multiplicities and in their order. |
| Query.Narrow | script.js:307-332 | The three filter stages only drop records: the result is a sub-multiset of the store. |
| Query.SortView | script.js:335-338 | Every sort mode, and the unsorted fallback, only rearranges its input. |
| Query.Visible | script.js:307-338 | The visible list is a sub-multiset of the store. |
| Query.NarrowIsFilter | script.js:307-332 | Applying the three filter stages one after another is the same as one filter by the conjunction of the active conditions. |
| Query.QuerySelects | script.js:307-338 | A record is visible exactly when it is stored and passes every active filter. An active month filter needs a matching date prefix. An active category filter needs an equal category. A non-empty trimmed, lower-cased query must occur in the lower-cased category, note, type or amount text. The visible list is a permutation of the filtered store. |
| Query.QueryOnlySelected | script.js:307-332 | Every visible record is stored and passes every active filter. |
| Query.QueryAllSelected | script.js:307-332 | Every stored record that passes every active filter is visible. |
| Query.QueryAmountHigh | script.js:337 | `amountHigh` lists the visible records with non-increasing amounts. |
| Query.QueryAmountLow | script.js:338 | `amountLow` lists the visible records with non-decreasing amounts. |
| Query.QueryLatest | script.js:336 | `latest` lists the visible records with non-increasing dates. |
| Query.QueryUnsorted | script.js:335-338 | Any other sort value leaves the filtered list in store order. |
| Query.QueryUnsortedKeepsOrder | script.js:335-338 | Under any other sort value the visible list is a subsequence of the store. |
| Query.LatestIsDescendingDates | script.js:336 | Under `latest`, well-formed dates come first and never increase in code-point order. |
| Query.QueryStable | script.js:335-338 | Records that tie under the sort key keep their store order. |
| Query.AmountSortsReverse | script.js:337-338 | When the visible records have distinct amounts, `amountHigh` is exactly the reverse of `amountLow`. |
| Query.ResetShowsAll | script.js:89-94 | After "reset filters", every stored record is visible, newest first. |
| Stats.Sums | script.js:171-172 | The running sums are the total income of the income records and the total of all other records. |
| Stats.ComputeStats | script.js:170-176 | Income sums the income records and expense sums the expense records. Net is income minus expense. All three are zero for an empty list. |
| Stats.StatsPermutation | script.js:170-176 | The totals do not depend on the order of the list, so sorting never changes them. |
| Stats.StatsConcat | script.js:170-176 | The totals of a concatenation are the sums of the parts' totals. |
| Charts.CategoryTotals | script.js:181-188 | There are never more pie segments than records. |
| Charts.CategoryBreakdown | script.js:181-190 | The pie dataset is never empty. |
| Charts.Accumulate | script.js:185 | Adding to a category keeps the existing labels and appends the category when it is new. |
| Charts.CategoryTotalsSpec | script.js:181-189 | Pie labels are distinct and are exactly the labels of the expense records (`"Other"` for an empty category). Each label's value is the sum of its expenses. The values sum to the expense total. |
| Charts.CategoryTotalsDistinct | script.js:185-188 | Each label occurs once among the pie segments. |
| Charts.CategoryTotalsLabels | script.js:182-188 | A label appears exactly when some expense record carries it. |
| Charts.CategoryTotalsValue | script.js:182-189 | The value under each label is the sum of the amounts of the expense records with that label. |
| Charts.CategoryTotalsSum | script.js:182-189 | The values add up to the expense total. |
| Charts.CategoryTotalsSegments | script.js:182-189 | Each segment shows the sum of the amounts of the expenses carrying its label. |
| Charts.CategoryOrderFirstMet | script.js:181-188 | Segments appear in the order their categories are first met: the labels of a prefix of the list are a prefix of the labels of the whole list. |
| Charts.CategoryBreakdownSpec | script.js:181-190 | With no expense the pie is exactly `["No expenses"] -> [1]`. Otherwise it is the category sums, and they add up to the expense total. |
| Charts.MonthTotals | script.js:229-241 | There are never more month buckets than records. |
| Charts.MonthBreakdown | script.js:229-247 | The bar dataset is never empty. |
| Charts.AddToMonthAscending | script.js:235-241 | Adding a record to its month keeps the month keys strictly ascending. |
| Charts.MonthTotalsSpec | script.js:229-241 | Month keys are strictly ascending. A month appears exactly when some dated record falls in it. Each month carries its records' income and expense. Together the bars carry all income and expense of the dated records, and undated records contribute nothing. |
| Charts.MonthTotalsAscending | script.js:229-241 | Month keys are strictly ascending, so each month occurs once. |
| Charts.MonthTotalsMonths | script.js:232-235 | A month appears exactly when some record with a parseable date falls in it. |
| Charts.MonthTotalsOf | script.js:232-237 | Each month carries the income of its income records and the amounts of all its other records as expense. |
| Charts.MonthTotalsAll | script.js:229-238 | Summed over all months, the bars carry exactly the income and expense of the records with parseable dates. |
| Charts.MonthBreakdownSpec | script.js:229-247 | With no dated record, the bars are the single bucket `(currentMonth, 0, 0)`. Otherwise they are the non-empty month sums. |
| Csv.EscapeQuotes | script.js:101 | Doubling quotes never shortens a text and never introduces a newline. |
| Csv.Row | script.js:101 | A row holds no line break when the record's category, date and note hold none. |
| Csv.JoinLines | script.js:102 | The joined text starts with the first line, followed by a line break when more lines follow. |
| Csv.ExportCsv | script.js:98-102 | Export fails exactly when the collection is empty. |
| Csv.JoinLinesRoundTrip | script.js:102 | Splitting `join('\n')` of newline-free lines at newlines gives back the lines. |
| Csv.ExportLines | script.js:99-102 | For a non-empty collection whose category, date and note have no newline, the lines of the export are exactly the header `Type,Amount,Category,Date,Note` followed by one row per record in store order, with no trailing newline. |
| Csv.ReadQuotedEscaped | script.js:101 | A quote-doubled text followed by a closing quote reads back as the text, leaving the rest unread. |
| Csv.NoteFieldRoundTrip | script.js:101 | The quoted, quote-doubled note field reads back as the original note. |
| Csv.RowNoteField | script.js:101 | The last field of an exported row is the quoted, quote-doubled note, and it reads back as the note to the end of the line. |
| Csv.CategoryFieldCounterexample | script.js:101 | In the row as written of any record whose category is `a"`, the category field does not read back as the category. |
| Csv.RowEscapedAgrees | script.js:101 | The corrected row equals the row as written exactly when the category holds no double quote. |
| Csv.ExportCsvEscaped | script.js:98-102 | The corrected export also fails exactly when the collection is empty. |
| Csv.CategoryFieldRoundTrip | script.js:101 | In the corrected row, the category field is quoted with its quotes doubled and reads back as the original category. |

## Left out

- DOM rendering, Chart.js datasets and options, the palette, and `monthKeyToLabel`/`formatCurrency` (script.js:38-44, 122-167, 192-226, 249-276): presentation only.
- Persistence through `localStorage` and JSON (script.js:33-34): browser I/O. `loadTxns` throws on corrupt data instead of recovering.
- `uid()` (script.js:37): it depends on the clock and randomness. The fresh id is a parameter of `Store.Add`, and uniqueness is proved under the assumption that the id is unused.
- `alert` and `confirm` (script.js:69-71, 99, 114): the errors are `Err` values, and `Store.Delete` models only the confirmed deletion.
- The clear-form button and the form reset after submission (script.js:76-77, 83-86): form UI state.
- `debounce` and `setTimeout` (script.js:361-364): scheduling, not data logic.
- The download of the CSV blob (script.js:103-109): browser I/O.
- Text.IntText: for amounts of 10^21 and above, JavaScript's `String` writes exponent notation (`1e+21`), so the page's search (script.js:330) matches texts such as `e+` and the export (script.js:101) writes `1e+21`. The model writes every amount's full decimal digits.
- Store.Add: amounts are whole rupees. `parseFloat` parsing, fractional amounts such as `12.5` (and their text in search and export), and float rounding in the sums are not modelled.
- Store.Add: the page checks only that the date field is non-empty, and the model follows the page. A non-empty date that does not parse is accepted, as in the page.
- Txn.DateStamp: an unparseable date compares as NaN in the page's `latest` comparator, which makes the sort order unspecified. The model ranks such dates below every well-formed date.
- Txn.DateStamp: `new Date` also accepts texts other than `YYYY-MM-DD`, such as full timestamps. The model treats only well-formed `YYYY-MM-DD` texts as dated. The entry form's date input produces nothing else.
- Charts.CategoryTotalsSpec: `Object.keys` lists integer-like keys first, in numeric order. The model keeps first-encountered order for every label.
- Charts.CategoryOrderFirstMet: first-met order is the page's order only for labels that are not integer-like; `Object.keys` puts integer-like labels such as `2024` first, in numeric order.
- Charts.CategoryTotals: the page's `byCategory` is a plain object (script.js:181, 185), and the model treats it as a map from label to sum. A category that names an `Object.prototype` member breaks the page's object. With `__proto__`, the page's write goes to the prototype setter and is ignored, so no label appears. With `toString`, `constructor`, `valueOf` or another inherited name, the page reads the inherited function and stores a string built from its source text and the amount. The model gives such a category its label and its numeric sum. JavaScript's prototype lookup and string concatenation are not modelled.
- Charts.Accumulate: for a label naming an `Object.prototype` member the page does not add the amount to a number, as described under Charts.CategoryTotals.
- Charts.CategoryTotalsLabels: the page shows no label for an expense in category `__proto__`; the model does.
- Charts.CategoryTotalsValue: for a label naming an inherited member such as `toString`, the page's value is a string, not the sum.
- Charts.CategoryTotalsSum: the page's values do not add up to the expense total when a category names an `Object.prototype` member.
- Charts.CategoryTotalsSegments: the same inherited-name cases give the page a string value or no segment.
- Charts.CategoryTotalsSpec: its labels, values and sum differ from the page for categories naming `Object.prototype` members.
- Charts.CategoryBreakdown: when the only expenses are in category `__proto__`, the page shows the `"No expenses"` placeholder and the model shows the expense.
- Charts.CategoryBreakdownSpec: the placeholder case differs from the page for `__proto__`-only expenses, as under Charts.CategoryBreakdown.
- Text.Lower: `toLowerCase` is modelled for ASCII letters only.
- FilterOptions.CategoryOptions: the default `sort()` compares UTF-16 code units and `localeCompare` compares by locale. Both are modelled as code-point order, which matches them on the ASCII texts of dates and the default categories.
- Charts.MonthTotalsSpec: buckets are built directly in ascending key order. Because the keys are distinct, this gives the same list as `Object.keys(byMonth).sort()`.

## Findings

| source | as written | input that shows it | evidently intended | confidence | as-written member | corrected member |
|---|---|---|---|---|---|---|
| script.js:101 | The category is wrapped in double quotes without doubling its internal quotes. The note is escaped. | A category `a"` exports as the field `"a"",...`. A CSV reader reads `a",...` instead of `a"`, so the row's fields shift. | The category is escaped like the note: `"` doubled inside the quotes. | not executed | Csv.CategoryFieldCounterexample | Csv.CategoryFieldRoundTrip |
