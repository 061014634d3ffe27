# ExpenseChi application state in Dafny

ExpenseChi is a Qt/QML personal expense tracker that keeps its transactions
in SQLite. This project models its application-state layer.

- **The controller (`AppController`).** It owns the month being viewed,
  always held as the first day of that month. It also owns the month's
  income and expense totals in integer cents, the category vocabulary,
  and a single-slot undo for the last deletion.
- **The list model (`TransactionsModel`).** It holds the month's visible
  transactions under a type filter, a category filter and a text filter,
  ordered by date descending and then id descending.

The SQL store is a `Database` object. It holds a map from id to record and
the AUTOINCREMENT counter. Each query the source runs is a function of that
map:

- the list query is `Projection.Query`;
- the GROUP BY summary is `Projection.SummaryQuery`;
- `SELECT DISTINCT category` is `Projection.DistinctCategories`.

The controller and the list model are classes. Their fields are the
source's fields, and their methods are the source's commands. The two
loops of the refresh routines and the row-fetch loop of `reload` are
`while` loops, each proved against these functions.

A store write that SQLite may reject takes a `fault` parameter standing for
that outcome. The creation timestamp of a new row is a parameter. The
single-shot undo timer is the `Expire` method.

Modules, in dependency order:

- `Dates` handles calendar dates, `QDate::addMonths`/`addDays(-1)` and the
  month range.
- `Text` holds the code-point string order, `QString::trimmed` and ASCII
  case folding.
- `DateText` covers the `yyyy-MM-dd` form. Its text order is the date
  order, and it parses back.
- `Search` is the text filter: the `%` escaping, SQLite `LIKE` with and
  without `ESCAPE`, and the intended substring match.
- `Ledger` is the store.
- `Projection` holds the queries and what they return.
- `Transactions` is the list model.
- `App` is the controller.
- `Scenarios` holds command sequences, including undo round trips.
- `Wrappers` holds the optional value returned by lookups and date parsing.

## Model

| member | source | states |
|---|---|---|
| Dates.DaysInMonth | src/AppController.cpp:251 | a month has 28 to 31 days; February has 29 exactly in leap years |
| Dates.FirstOfMonth | src/AppController.cpp:103 | the normalised month keeps year and month, has day 1, is a valid date not after the input |
| Dates.AddMonths | src/AppController.cpp:91-99 | moves exactly n months (year*12+month index shifts by n), stays a valid date, clamps the day to the target month |
| Dates.PrevDay | src/AppController.cpp:251 | addDays(-1) of a valid date is a valid, earlier date |
| Dates.PrevDayIsImmediate | src/AppController.cpp:251 | no valid date lies strictly between PrevDay(d) and d |
| Dates.NextMonthWraps | src/AppController.cpp:91-94 | from a first day, one month forward is the next month's first day, December wrapping to January of the next year |
| Dates.PrevMonthWraps | src/AppController.cpp:96-99 | from a first day, one month back is the previous month's first day, January wrapping to December of the previous year |
| Dates.NextPrevMonthInverse | src/AppController.cpp:91-99 | next month then previous month (and the reverse) returns to the same first day |
| Dates.LastOfMonthIsMonthEnd | src/models/TransactionsModel.cpp:91-92 | first day + 1 month - 1 day is the month's last calendar day, a valid date |
| Dates.InMonthIff | src/models/TransactionsModel.cpp:91-96 | a valid date is BETWEEN the month's first and last day exactly when it has the month's year and month |
| Text.LessIrreflexive | src/AppController.cpp:287 | no category sorts before itself |
| Text.LessTransitive | src/AppController.cpp:287 | the ORDER BY string order is transitive |
| Text.LessTotal | src/AppController.cpp:287 | any two distinct strings are ordered exactly one way |
| Text.LessConcat | src/models/TransactionsModel.cpp:111-112 | for equal-length heads, concatenations compare by head first, then by tail |
| Text.TrimStartSpec | src/models/TransactionsModel.cpp:104 | drops exactly a whitespace prefix; the result is a suffix not starting with whitespace |
| Text.TrimEndSpec | src/models/TransactionsModel.cpp:104 | drops exactly a whitespace suffix; the result is a prefix not ending with whitespace |
| Text.Trim | src/models/TransactionsModel.cpp:104 | the trimmed text neither starts nor ends with whitespace |
| Text.TrimIsInnerSlice | src/models/TransactionsModel.cpp:104 | the trimmed text is a contiguous slice of the input with only whitespace on either side |
| Text.TrimIdempotent | src/models/TransactionsModel.cpp:104 | a property of the trimming itself: trimming an already trimmed text changes nothing |
| Text.TrimBlankIff | src/models/TransactionsModel.cpp:104 | the text filter is blank exactly when every character is whitespace |
| Text.FoldCase | src/models/TransactionsModel.cpp:105 | each ASCII capital folds to its own lower-case letter (code + 32); every other character is unchanged |
| Text.ContainsFoldedIff | src/models/TransactionsModel.cpp:105 | the substring test holds exactly when the needle matches, ignoring ASCII case, at some position |
| DateText.Digits | src/models/TransactionsModel.cpp:111 | a zero-padded field has exactly the requested width and only digits |
| DateText.FormatDate | src/models/TransactionsModel.cpp:59 | the yyyy-MM-dd text has 10 characters with dashes at positions 4 and 7 |
| DateText.ParseDate | src/models/TransactionsModel.cpp:130 | reading a date yields only valid calendar days with a four-digit year |
| DateText.DigitsRoundTrip | src/models/TransactionsModel.cpp:130 | reading back a written zero-padded number gives the number |
| DateText.DigitsOrder | src/models/TransactionsModel.cpp:111-112 | zero-padded numbers of one width compare as texts as they do as numbers |
| DateText.DateRoundTrip | src/AppController.cpp:186 | writing a date (year 0..9999) as yyyy-MM-dd and reading it back gives the same date |
| DateText.DashedOrder | src/models/TransactionsModel.cpp:107 | dash-separated fixed-width texts compare field by field |
| DateText.DateTextOrder | src/models/TransactionsModel.cpp:94-96 | for printable dates the text order of yyyy-MM-dd is the date order, and equal texts mean equal dates |
| Search.EscapePercent | src/models/TransactionsModel.cpp:120 | escaping adds one character per `%` and never starts with `%` |
| Search.EscapePercentRoundTrip | src/models/TransactionsModel.cpp:120 | the escaping loses nothing: unescaping gives the original text back |
| Search.EscapedPercentFollowsBackslash | src/models/TransactionsModel.cpp:120 | every `%` of the escaped text directly follows a backslash |
| Search.SearchPattern | src/models/TransactionsModel.cpp:119-122 | the bound pattern is the escaped trimmed text wrapped in `%`, two characters plus one per `%` longer |
| Search.LikeBackslashNeedsBackslash | src/models/TransactionsModel.cpp:105 | without ESCAPE, a pattern containing a backslash matches only values containing one |
| Search.EscapedPercentBringsBackslash | src/models/TransactionsModel.cpp:120 | escaping a text that contains `%` puts a backslash into it |
| Search.LikeMissesWithoutBackslash | src/models/TransactionsModel.cpp:105 | without ESCAPE, a pattern containing a backslash rejects every value without one |
| Search.PercentSearchMissesLiteral | src/models/TransactionsModel.cpp:119-122 | whenever the trimmed search text contains `%`, the LIKE the source builds rejects every value without a backslash, including values that contain the search text |
| Search.NoteContainsPercentText | src/models/TransactionsModel.cpp:119-122 | the note "50% off" contains the search text "50%" (ignoring case, after trimming) and has no backslash, so the source's LIKE wrongly hides it |
| Search.EscapePercentKeepsPlainText | src/models/TransactionsModel.cpp:120 | the escaping leaves every text without `%` unchanged |
| Search.LikePrefix | src/models/TransactionsModel.cpp:105 | without ESCAPE, a wildcard-free text followed by `%` matches exactly the values it is a case-folded prefix of |
| Search.LikeSubstring | src/models/TransactionsModel.cpp:105 | without ESCAPE, `%text%` with a wildcard-free text matches exactly the values containing the text, ignoring ASCII case |
| Search.AsWrittenMeetsIntentWithoutWildcards | src/models/TransactionsModel.cpp:119-122 | the LIKE the source builds matches a value exactly when the value contains the trimmed search text, ignoring ASCII case, provided that text has neither `%` nor `_` |
| Search.EscapeLike | src/models/TransactionsModel.cpp:120 | full escaping adds one backslash per special character |
| Search.LikeEscapedPercentMatchesAll | src/models/TransactionsModel.cpp:121 | a lone `%` matches every value |
| Search.EscapedPrefix | src/models/TransactionsModel.cpp:121 | an escaped text followed by `%` matches exactly the values it is a case-folded prefix of |
| Search.EscapedSearchIsSubstring | src/models/TransactionsModel.cpp:105 | with ESCAPE and full escaping, `%text%` matches exactly the values containing the text |
| Search.EscapedSearchMeetsIntent | src/models/TransactionsModel.cpp:119-122 | the corrected pattern matches a value exactly when the value contains the trimmed search text, ignoring ASCII case |
| Ledger.MinOf | src/db/Database.cpp:63 | returns the least id of a non-empty id set |
| Ledger.SortedIdsMembers | src/db/Database.cpp:63 | the scan order lists exactly the ids of the table |
| Ledger.SortedIdsLength | src/db/Database.cpp:63 | the scan order has one entry per id |
| Ledger.SortedIdsIncrease | src/db/Database.cpp:63 | the scan order is strictly ascending |
| Ledger.SortedIdsSpec | src/db/Database.cpp:63 | the scan order lists every id exactly once, strictly ascending |
| Ledger.TableHoldsEveryRow | src/db/Database.cpp:62-69 | a table scan returns every stored row and nothing else |
| Ledger.TableIdsIncrease | src/db/Database.cpp:63 | a table scan lists rows by strictly increasing id |
| Ledger.SortedIdsAddLargest | src/db/Database.cpp:63 | a new id above all others is scanned last |
| Ledger.RowsAtAppend | src/db/Database.cpp:63 | reading a new row under its id appends it to the rows read |
| Ledger.TableAppend | src/db/Database.cpp:63 | inserting under a new largest id appends the row to the scan |
| Ledger.WithFields | src/AppController.cpp:149-151 | an UPDATE replaces type, amount, date, category and note and keeps id and created_at |
| Ledger.Database.constructor | src/db/Database.cpp:62-69 | a store opened over well-keyed rows is valid and holds them |
| Ledger.Database.Find | src/AppController.cpp:175-181 | the lookup finds a row exactly when the id is stored, and then it is that row |
| Ledger.Database.Insert | src/AppController.cpp:120-131 | an accepted INSERT stores exactly one new row under last id + 1, unused before; a rejected one changes nothing |
| Ledger.Database.InsertWithId | src/AppController.cpp:216-228 | an INSERT with an id succeeds exactly when it is accepted and the id is free, storing the row under it; otherwise nothing changes |
| Ledger.Database.Update | src/AppController.cpp:148-159 | an accepted UPDATE rewrites the five fields of the row with the id, and succeeds without change when no row has it |
| Ledger.Database.Delete | src/AppController.cpp:191-195 | an accepted DELETE removes the id and nothing else; a rejected one changes nothing |
| Ledger.DeleteThenReinsert | src/AppController.cpp:210-237 | re-inserting a deleted row under its own id restores the table exactly |
| Projection.NoFiltersHideNothing | src/models/TransactionsModel.h:50 | with type -1, empty category and empty text, a row is listed exactly when it is in the month |
| Projection.SelectMembers | src/models/TransactionsModel.cpp:94-106 | the WHERE clause keeps exactly the rows that pass every filter |
| Projection.SelectKeepsOrder | src/models/TransactionsModel.cpp:94-106 | the WHERE clause keeps rows in scan order: ascending ids stay ascending |
| Projection.ListedBeforeAsymmetric | src/models/TransactionsModel.cpp:107 | no two rows are each listed above the other |
| Projection.InsertListingPermutes | src/models/TransactionsModel.cpp:107 | placing a row into a listing adds exactly that row |
| Projection.InsertListingOrdered | src/models/TransactionsModel.cpp:107 | placing a row with a new id into an ordered listing keeps it ordered |
| Projection.SortListingPermutes | src/models/TransactionsModel.cpp:107 | ORDER BY is a permutation of the selected rows |
| Projection.SortListingOrders | src/models/TransactionsModel.cpp:107 | rows with distinct ids come out by date descending, then id descending |
| Projection.OrderedListingIsUnique | src/models/TransactionsModel.cpp:107 | two listings of the same rows in that order are identical |
| Projection.OrderedStoreRowsHaveDistinctIds | src/models/TransactionsModel.cpp:107 | stored rows in strict listing order never repeat an id |
| Projection.QueryIsOrderedListing | src/models/TransactionsModel.cpp:94-107 | the list query returns exactly the stored rows passing all filters, each once, by date descending then id descending |
| Projection.QueryIsTheOnlyListing | src/models/TransactionsModel.cpp:107 | any ordered listing of exactly the visible rows is the query's result |
| Projection.ListingWithinMonth | src/models/TransactionsModel.cpp:91-96 | every listed item is dated from the month's first day to its last day, computed as first + 1 month - 1 day |
| Projection.ListingPassesFilters | src/models/TransactionsModel.cpp:98-122 | every listed item has the filtered type, the filtered category, and contains the search text in note or category |
| Projection.MonthRowsIgnoreFilters | src/AppController.cpp:250-256 | the summary reads exactly the stored rows dated in the month, whatever the list filters are |
| Projection.GroupByKindSpec | src/AppController.cpp:255-256 | GROUP BY yields at most one row per type, each with its type's sum, exactly for the types present; listing them in ascending type order is the model's choice, since SQL fixes no order here |
| Projection.KindTotalWithoutKind | src/AppController.cpp:260-261 | a type with no rows totals 0 |
| Projection.SummaryQueryTotals | src/AppController.cpp:254-258 | each summary row carries its type's month total, and an absent type's total is 0 |
| Projection.SelectAppend | src/models/TransactionsModel.cpp:94-106 | filtering rows plus one more row adds that row exactly when it passes |
| Projection.KindTotalAppend | src/AppController.cpp:255 | one more row raises its type's sum by its amount |
| Projection.MonthTotalAfterAdd | src/AppController.cpp:131-135 | a new row raises the month total of its type by its amount when dated in the month, and changes nothing else |
| Projection.InsertSortedSpec | src/AppController.cpp:287 | inserting into a strictly sorted list keeps it strictly sorted and adds exactly the new value |
| Projection.SortedDistinctSpec | src/AppController.cpp:287 | DISTINCT ... ORDER BY gives the values of the input, strictly ascending |
| Projection.DistinctCategoriesAreStoreCategories | src/AppController.cpp:287 | the distinct categories are strictly ascending and exactly the categories of stored rows |
| Projection.WithoutSpec | src/AppController.cpp:291-292 | skipping listed values keeps exactly the others and keeps a sorted list sorted |
| Projection.WithoutAppend | src/AppController.cpp:289-294 | one more category is kept at the end exactly when it is not listed |
| Projection.StoredCategoryOffered | src/AppController.cpp:281-296 | with the store open, every stored row's category is in the category list |
| Projection.VocabularyShape | src/AppController.cpp:281-296 | the vocabulary starts with the five builtins in order, never repeats, and holds exactly the builtins and (store open) the store's categories, the added ones ascending |
| Transactions.RoleValue | src/models/TransactionsModel.cpp:49-66 | a role gives a value exactly when it is one of the seven roles; the date role is a 10-character text; the id role the id |
| Transactions.DateRoleReadsBack | src/models/TransactionsModel.cpp:58-59 | the date text a row shows reads back as the item's date |
| Transactions.ToItemsAppend | src/models/TransactionsModel.cpp:124-135 | fetching one more row appends its item |
| Transactions.TransactionsModel.constructor | src/models/TransactionsModel.h:47-52 | a new model has a null month, type filter -1, empty category and text filters, and no items |
| Transactions.TransactionsModel.Reload | src/models/TransactionsModel.cpp:82-138 | with the store open the items become the listing of the month under the filters; with it closed they are unchanged |
| Transactions.TransactionsModel.SetMonth | src/models/TransactionsModel.cpp:17-24 | the same month changes nothing; another month is stored and the items reloaded for it |
| Transactions.TransactionsModel.SetFilters | src/models/TransactionsModel.cpp:26-32 | all three filters are replaced together and the items always reloaded |
| Transactions.TransactionsModel.RowCount | src/models/TransactionsModel.cpp:34-40 | no rows under a valid parent, otherwise the item count |
| Transactions.TransactionsModel.Data | src/models/TransactionsModel.cpp:42-67 | an invalid index or a row outside [0, count) gives nothing; otherwise the role's value of that item |
| Transactions.RowCountCountsVisibleRecords | src/models/TransactionsModel.cpp:34-40 | with the store open, the row count is the number of stored records passing the filters in the month |
| Transactions.DataShowsVisibleRecords | src/models/TransactionsModel.cpp:42-57 | each view row shows, under every role, the values of a stored record that passes the filters, and consecutive rows are in listing order |
| App.GroupTotalsAreKindTotals | src/AppController.cpp:263-271 | overwriting a side per GROUP BY row leaves each side holding its type's total |
| App.ReadGroups | src/AppController.cpp:260-272 | the loop ends with each side holding the last row of its type, or 0 |
| App.MergeCategories | src/AppController.cpp:283-295 | the loop over sorted distinct categories yields the builtins followed by the non-builtin categories |
| App.AppController.constructor | src/AppController.cpp:22-29 | starts on the first day of today's month, with no filters, the list synced, the month's totals, the vocabulary, and undo empty |
| App.AppController.RefreshSummary | src/AppController.cpp:244-279 | with the store open the totals become the month's income and expense sums; closed, they are untouched; `changed` exactly when a total differs |
| App.AppController.RefreshCategories | src/AppController.cpp:281-302 | the list becomes the vocabulary of the store; `changed` exactly when it differs |
| App.AppController.ClearUndo | src/AppController.cpp:304-312 | undo ends disarmed; `changed` exactly when it was armed |
| App.AppController.Expire | src/AppController.cpp:31-33 | the timer's expiry disarms undo |
| App.AppController.SummaryNetCents | src/AppController.cpp:66-69 | net is the month's income total minus its expense total (0 with the store closed) |
| App.AppController.SetMonth | src/AppController.cpp:101-111 | stores the first day of the given month; the same month changes nothing; the view state stays consistent |
| App.AppController.NextMonth | src/AppController.cpp:91-94 | moves to the next month's first day, wrapping the year |
| App.AppController.PrevMonth | src/AppController.cpp:96-99 | moves to the previous month's first day, wrapping the year |
| App.AppController.SetFilters | src/AppController.cpp:239-242 | passes the three filters to the list model; the summary is untouched |
| App.AppController.AddTransaction | src/AppController.cpp:113-139 | succeeds exactly when the store is open and accepts; then exactly one new record with the given fields under last id + 1, its type's total raised by its amount if in the month, the counter now at that id, its category offered; otherwise nothing changes |
| App.AppController.UpdateTransaction | src/AppController.cpp:141-167 | succeeds exactly when the store is open and accepts, even for an absent id; rewrites only that record's five fields; a failure changes nothing |
| App.AppController.DeleteTransaction | src/AppController.cpp:169-208 | an absent id or closed store changes nothing; a stored id overwrites the snapshot with the full record even if the DELETE is then rejected; success removes it and arms undo |
| App.AppController.UndoDelete | src/AppController.cpp:210-237 | succeeds exactly when open, armed, accepted and the snapshot's id is free; then re-inserts the snapshot under its id, raises the AUTOINCREMENT counter to that id if it was lower, and disarms undo; a failure changes nothing, the counter included, and leaves undo armed |
| Scenarios.DeleteThenUndo | src/AppController.cpp:169-237 | delete followed by undo restores the rows and the AUTOINCREMENT counter, the list, the totals and the categories exactly, and disarms undo |
| Scenarios.OnlyLastDeletionRestored | src/AppController.cpp:183-189 | after two deletions undo succeeds and restores only the second one, and a second undo is refused |
| Scenarios.UndoAfterExpiryFails | src/AppController.cpp:210-214 | after the timer fires undo returns failure and the row stays deleted |
| Scenarios.RejectedDeleteLosesUndo | src/AppController.cpp:183-195 | a rejected DELETE overwrites the snapshot while undo stays armed, so the earlier deletion can no longer be undone |
| Scenarios.ClearUndoTwice | src/AppController.cpp:304-312 | clearUndo reports a change only the first time |

## Left out

- Database opening, directory creation and schema migration (src/db/Database.cpp) are file and database I/O. The store's open state is fixed when it is built, and `dbErrorMessage` is not modelled.
- `TransactionsModel::setDatabase` is folded into the list model's constructor, which takes the store.
- src/main.cpp and the QML user interface are not part of this model.
- A failing read query (the summary, category or list SELECT, or the lookup before a DELETE) is not modelled. Reads on an open store always succeed here.
- Transactions.TransactionsModel.Reload: with the store open and the SELECT failing, the source leaves the list empty; the model has no failing reads, so it never produces that empty list.
- `formatCents` and the amount-formatted role use floating-point division and locale formatting. The role yields `FormattedAmount(cents)` in place of the formatted text.
- Qt signals and `beginResetModel`/`endResetModel` are modelled only as the `changed` results of the refresh and clear methods. `roleNames` is UI plumbing and is left out.
- The timer's 5000 ms interval and wall-clock time are left out. Expiry is the `Expire` method, and `created_at` is a parameter.
- App.AppController.AddTransaction: the `type` argument is restricted to 0 or 1 (Ledger.Kind). The source passes any int to the INSERT, and refreshSummary's overwrite-per-group equals a sum only for these two types.
- App.AppController.UpdateTransaction: the `type` argument is restricted to 0 or 1 for the same reason.
- App.AppController.SetMonth: requires a valid date. A null or invalid QDate normalises to an invalid month in the source.
- Dates.AddMonths: years are astronomical (year 0 exists). QDate skips year 0, which only matters for dates before 1 AD.
- Dates are compared as (year, month, day) triples. The store compares `yyyy-MM-dd` texts; DateText.DateTextOrder proves the two orders agree for years 0..9999.
- The text filter is modelled by its intended meaning: an ASCII case-insensitive substring test on note or category (Search.SearchMatches). Search.AsWrittenMeetsIntentWithoutWildcards proves that the LIKE the source actually builds means exactly this whenever the trimmed search text has neither `%` nor `_`. For searches containing `%` the two differ (see Findings).
- SQLite's `_` wildcard in the source's LIKE pattern is unescaped, so `_` in the search text matches any one character; the model's filter treats it literally.
- A NULL `note` column is not modelled; notes are always strings.
- `SUM(amount_cents)` and the amounts are unbounded integers. The source reads them back with `toInt`, which truncates to 32 bits.

## Findings

| source | as written | input that shows it | evidently intended | confidence | as-written member | corrected member |
|---|---|---|---|---|---|---|
| src/models/TransactionsModel.cpp:105, 120-121 | every `%` of the search text becomes `\%` inside a LIKE with no ESCAPE clause, so the backslash is a literal character | note "50% off", search text "50%" (Search.NoteContainsPercentText): pattern `%50\%%` does not match | the note contains the search text, so it should be listed | not executed | Search.PercentSearchMissesLiteral | Search.EscapedSearchMeetsIntent |
