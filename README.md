# FinanceTracker core, modelled in Dafny

FinanceTracker is a personal-finance web API. Its users upload bank
statements as CSV text and record transactions by hand. A machine-learned
categorizer labels the uploaded rows. Users can also set a monthly spending
budget and ask how much of it is left.

This project models the parts of the API that decide what gets stored and
what gets answered:

- **Statement import** (`statement.dfy`), from `StatementController.cs`:
  - delimiter detection;
  - the row parser, with its fixed order of checks and its exact error texts;
  - the explicit date patterns (`dates.dfy`) and the invariant-culture amount
    parser (`numbers.dfy`);
  - the upload loop and its batch policy: the header is skipped, rows are
    numbered from 2, blank rows are skipped, the first bad row stops the
    upload, nothing is stored on failure, and the categorizer retrains after
    a save.
- **The categorizer** (`categorization.dfy`), from `TransactionCategorizer.cs`:
  - a class whose `model`, `predictor` and saved model file are set by the
    constructor and replaced by `Train`;
  - `Predict`, which falls back to "Uncategorized";
  - training on every stored row that has a category.

  The learning algorithm itself is a pair of functions, `fit` and `apply`,
  that the class is given.
- **Transactions** (`transactions.dfy`), from `TransactionController.cs`:
  - listing, with the caller check, the income/expense type filter, the
    case-insensitive category filter, and newest-first order;
  - creating a transaction, with validation in order and normalisation;
  - the balance.
- **Budgets** (`budgets.dfy`), from `BudgetController.cs`:
  - the monthly summary (budget, spent, remaining, status);
  - `SetBudget`, which validates the request, then updates the month's budget
    or inserts one.

The support modules are:

- `text.dfy`: the .NET string operations the controllers use (`Trim`,
  `Trim('"')`, `Split`, `IsNullOrWhiteSpace`, `ToLowerInvariant`), and
  `IndexOf`, which the model's decimal parser uses to find the point.
  Lower-casing maps the capitals of Basic Latin, Latin-1 (U+00C0-U+00DE),
  the Greek and Coptic block (U+0370-U+03FF, every capital with a lower-case
  form) and the Cyrillic block U+0400-U+042F; every other character is kept
  as it is.
- `wrappers.dfy`: `Option` and `Result`.
- `models.dfy`: the `Transaction` and `MonthlyBudget` records, and a
  `Database` class whose two tables are sequences that the state-changing
  operations reassign.

Amounts are `real`, so decimal arithmetic is exact. Dates are calendar dates
(year, month, day). The caller's user id and the current date are parameters.

The culture-dependent fallbacks that cannot be seen are `Fallbacks` values
passed in:

- the two general `DateTime.TryParse` calls;
- the `CurrentCulture` decimal retry.

Some behaviours of the code that the model keeps:

- `Trim('"')` strips every leading and trailing quote, not just one pair.
- Row numbers count the non-empty lines left after splitting on CR and LF,
  not physical file lines.
- `Train` has no error handling, and it overwrites the model file in place.
- Nothing in the schema enforces one budget per user and month.

## Model

| member | source | states |
|---|---|---|
| Statement.FirstPresent | FinanceTracker.Api/Controllers/StatementController.cs:173-184 | none exactly when no candidate occurs in the line; a found delimiter is a candidate and occurs in the line |
| Statement.FirstPresentIsEarliest | FinanceTracker.Api/Controllers/StatementController.cs:16 | the chosen delimiter is the earliest candidate in the list that occurs, however often other candidates occur |
| Statement.DetectDelimiter | FinanceTracker.Api/Controllers/StatementController.cs:173-184 | the foreach with early return yields exactly the first of ',', ';', tab, '\|' present in the line, or none |
| Statement.Cell | FinanceTracker.Api/Controllers/StatementController.cs:143 | a cleaned cell neither starts nor ends with '"' |
| Statement.CellSlice | FinanceTracker.Api/Controllers/StatementController.cs:143 | a cleaned cell is the part with a white-space prefix and suffix removed, and then a '"' prefix and suffix removed, with neither end of either step strippable |
| Statement.QuotedCell | FinanceTracker.Api/Controllers/StatementController.cs:143 | a quoted field with white space around the quotes, as in `2024-01-15, "Coffee" ,-5.00`, cleans to the text between the quotes |
| Statement.Cells | FinanceTracker.Api/Controllers/StatementController.cs:141-144 | one cell per part of the split on the delimiter, empty cells kept, each unquoted at both ends |
| Statement.TryParseDecimal | FinanceTracker.Api/Controllers/StatementController.cs:206-215 | the invariant-culture parse decides whenever it accepts; only when it refuses does the culture fallback decide |
| Statement.AmountCellRoundTrip | FinanceTracker.Api/Controllers/StatementController.cs:206-215 | an amount cell of digits, or digits '.' digits, reads as its decimal value, and with a leading '-' as its negation, whatever the culture fallback |
| Statement.NegatedAmountCell | FinanceTracker.Api/Controllers/StatementController.cs:206-215 | an amount the invariant parse reads as v is read by the row parser as v, and with a leading '-' as -v, whatever the culture fallback |
| Statement.RowCells | FinanceTracker.Api/Controllers/StatementController.cs:127-150 | "Empty row." exactly for an empty trimmed line. The separator error exactly for a non-empty line with no candidate delimiter. The too-few-columns error exactly when the split on the detected delimiter has fewer than three parts. Otherwise the cleaned cells of that split, at least three, each unquoted at both ends |
| Statement.ParseCells | FinanceTracker.Api/Controllers/StatementController.cs:152-170 | success exactly when the date of cell 0 and the amount of cell 2 both parse, yielding (date, cell 1, amount); an unparseable date is reported before an unparseable amount, each quoting its cell |
| Statement.TryParseTransactionRow | FinanceTracker.Api/Controllers/StatementController.cs:116-171 | "Empty row." if and only if the raw line is white space only; a parsed description never starts or ends with '"' |
| Statement.NoSeparatorExactlyWhenNoDelimiter | FinanceTracker.Api/Controllers/StatementController.cs:134-139 | the separator error is reported if and only if the row is not blank and its trimmed text holds none of the four delimiters |
| Statement.RowOfCells | FinanceTracker.Api/Controllers/StatementController.cs:127-170 | a row formed by joining clean cells with a delimiter that no cell contains (nor any earlier candidate) parses as those cells: the outcome is that of the date, description and amount cells, and later cells are ignored |
| Statement.CellsOfJoin | FinanceTracker.Api/Controllers/StatementController.cs:141-144 | splitting a join of clean, delimiter-free cells and cleaning each part gives back the cells |
| Statement.JoinDelimiterDetected | FinanceTracker.Api/Controllers/StatementController.cs:173-184 | the joining delimiter is the one detected when no earlier candidate occurs in the cells |
| Statement.DataRows | FinanceTracker.Api/Controllers/StatementController.cs:65-87 | a failure is a row error whose row number lies between i+1 and the number of lines; a success has at most one row per remaining line |
| Statement.ParseStatement | FinanceTracker.Api/Controllers/StatementController.cs:53-92 | "no rows to import" exactly when the split leaves at most one line. An accepted upload has at least one row and fewer rows than lines. A row error names a row from 2 to the number of lines |
| Statement.HeaderNeverParsed | FinanceTracker.Api/Controllers/StatementController.cs:65 | two uploads differing only in their first line behave identically: the header is never parsed |
| Statement.DataRowsIgnoresHeader | FinanceTracker.Api/Controllers/StatementController.cs:65 | the row loop's outcome depends only on the lines after the first |
| Statement.HeaderOnlyHasNoRows | FinanceTracker.Api/Controllers/StatementController.cs:53-60 | a file of one line without line breaks is refused with "does not contain any rows to import" |
| Statement.DataRowsFailure | FinanceTracker.Api/Controllers/StatementController.cs:65-75 | a failure names row k+1 for the 0-based line k; that line is not blank and fails to parse with the reported reason; every line before it is blank or parses |
| Statement.DataRowsSuccess | FinanceTracker.Api/Controllers/StatementController.cs:65-87 | the rows succeed if and only if every line is blank or parses; the result is then the parses of the non-blank lines, in order, one per line |
| Statement.AllBlankRows | FinanceTracker.Api/Controllers/StatementController.cs:67-70 | the loop collects nothing if and only if every remaining line is blank |
| Statement.NoTransactionsExactlyWhenAllBlank | FinanceTracker.Api/Controllers/StatementController.cs:89-92 | "No transactions could be parsed" is the answer if and only if there are data lines and all of them are blank |
| Statement.RowFailureReported | FinanceTracker.Api/Controllers/StatementController.cs:65-75 | a row error names row 2 or later, within the file, and that line fails to parse with the reported reason |
| Statement.EarlierRowsAccepted | FinanceTracker.Api/Controllers/StatementController.cs:65-75 | every data line before the reported one is blank or parses (fail-fast on the first bad row) |
| Statement.NeverEmptyRowReason | FinanceTracker.Api/Controllers/StatementController.cs:67-70 | "Empty row." is never the reason an upload gives, because blank rows are skipped before parsing |
| Statement.DataRowsNeverEmpty | FinanceTracker.Api/Controllers/StatementController.cs:67-75 | no row loop whose parser never calls a non-blank line empty reports "Empty row." |
| Statement.AcceptedRows | FinanceTracker.Api/Controllers/StatementController.cs:65-99 | an accepted upload has a header and data lines, and at least one row; the rows are the parses of the non-blank data lines in order |
| Statement.Materialize | FinanceTracker.Api/Controllers/StatementController.cs:77-86 | one transaction per parsed row, in order, with the caller's id and Predict's category |
| Statement.ParseRows | FinanceTracker.Api/Controllers/StatementController.cs:65-87 | the imperative loop computes exactly the row loop's outcome, with each parsed row as a transaction categorized by Predict |
| Statement.UploadStatement | FinanceTracker.Api/Controllers/StatementController.cs:53-99 | on refusal: the exact message, and no table or categorizer state changed. On success: the count of rows, the table extended by exactly those transactions in order, and Train's effect on the new table. A first upload with no predictor leaves a predictor when the categorizer shares the database. Budgets are never touched |
| Statement.GetTransactions | FinanceTracker.Api/Controllers/StatementController.cs:102-114 | the caller's rows, each as often as stored and no others, newest first |
| Categorization.TrainingExamples | FinanceTracker.Api/ML/TransactionCategorizer.cs:42-49 | at most one example per stored row; every example has a non-empty category; none at all if and only if every row's category is empty |
| Categorization.TrainingExamplesSelect | FinanceTracker.Api/ML/TransactionCategorizer.cs:42-49 | an example is selected if and only if some stored row (of any user) with a non-empty category copies to it |
| Categorization.TrainingExamplesAppend | FinanceTracker.Api/ML/TransactionCategorizer.cs:42-49 | examples keep table order: those of a concatenation are the concatenated examples |
| Categorization.TransactionCategorizer.constructor | FinanceTracker.Api/ML/TransactionCategorizer.cs:13-23 | a predictor exists exactly when the model file exists; the model is the file's content |
| Categorization.TransactionCategorizer.Predict | FinanceTracker.Api/ML/TransactionCategorizer.cs:25-38 | "Uncategorized" with no predictor; with one, the model's label, or "Uncategorized" when it gives none |
| Categorization.TransactionCategorizer.Train | FinanceTracker.Api/ML/TransactionCategorizer.cs:40-68 | with no examples, nothing changes. Otherwise the model, the saved file and the predictor all become the model fitted on the examples. A present predictor is never lost |
| Transactions.Matching | FinanceTracker.Api/Controllers/TransactionController.cs:29-48 | every row occurs in the result as often as in the table if it is the caller's and passes both filters, and not at all otherwise |
| Transactions.KeepsType | FinanceTracker.Api/Controllers/TransactionController.cs:31-42 | a row is dropped exactly when the parameter is not blank and lower-cases to "income" with a non-positive amount, or to "expense" with a non-negative amount |
| Transactions.KeepsCategory | FinanceTracker.Api/Controllers/TransactionController.cs:44-48 | a blank or missing parameter keeps every row; a row whose category equals the parameter is kept; a kept row's category has the parameter's length |
| Transactions.NewestFirstCons | FinanceTracker.Api/Controllers/TransactionController.cs:51 | a sequence with a head is newest first if and only if its tail is and no later row is after the head |
| Transactions.InsertNewestFirst | FinanceTracker.Api/Controllers/TransactionController.cs:51 | inserting into a newest-first sequence keeps it newest first and adds exactly that row |
| Transactions.SortNewestFirst | FinanceTracker.Api/Controllers/TransactionController.cs:51 | the result is ordered by date descending and is a permutation of the input |
| Transactions.Get | FinanceTracker.Api/Controllers/TransactionController.cs:21-63 | Unauthorized "Invalid user context." exactly when the claim is not an integer. Otherwise: the caller's rows passing both filters, each as often as stored, nothing else, and newest first |
| Transactions.GetOnlyCallersRows | FinanceTracker.Api/Controllers/TransactionController.cs:29 | every listed row is stored and belongs to the caller |
| Transactions.ZeroPassesNeitherTypeFilter | FinanceTracker.Api/Controllers/TransactionController.cs:31-42 | a zero amount passes neither the income nor the expense filter |
| Transactions.ToLowerKeepsBlank | FinanceTracker.Api/Controllers/TransactionController.cs:31-33 | lower-casing a parameter does not change whether it is blank |
| Transactions.TypeFilterIgnoresCase | FinanceTracker.Api/Controllers/TransactionController.cs:31-42 | two type parameters equal up to case filter identically |
| Transactions.CategoryFilterIgnoresCase | FinanceTracker.Api/Controllers/TransactionController.cs:44-48 | the category filter ignores case in both the parameter and the stored category |
| Transactions.ValidateCreate | FinanceTracker.Api/Controllers/TransactionController.cs:67-97 | each refusal occurs exactly under its own condition and in order: no body; a non-integer claim; a blank description; a zero amount. Otherwise the normalised record |
| Transactions.NewTransaction | FinanceTracker.Api/Controllers/TransactionController.cs:90-97 | the caller's id and the amount as sent; the description is the sent one trimmed, so it has no white space at either end and is empty exactly for a blank one; the category is the sent one trimmed when one is sent, otherwise "Uncategorized", and is always non-empty with no white space at either end; a date other than the default is kept, and the default is replaced by "now" |
| Transactions.CreatedIsNormalised | FinanceTracker.Api/Controllers/TransactionController.cs:90-97 | a stored record has the caller's id and the amount as sent, which is non-zero. Its description is the sent one trimmed, and it and the category are non-empty with no surrounding white space. Its date is the sent one, or "now" when the default was sent |
| Transactions.CreateIsIdempotent | FinanceTracker.Api/Controllers/TransactionController.cs:90-97 | sending a stored record back stores the same record: normalisation is idempotent |
| Transactions.RecreateNormalised | FinanceTracker.Api/Controllers/TransactionController.cs:90-97 | a record with non-empty, unpadded description and category, sent back as a request, is stored unchanged |
| Transactions.Create | FinanceTracker.Api/Controllers/TransactionController.cs:67-110 | the answer is the validation's; exactly one record is appended on success and nothing changes on refusal; budgets untouched |
| Transactions.BalanceIsTotal | FinanceTracker.Api/Controllers/TransactionController.cs:126-129 | the positive sum plus the negative sum equals the sum of all the caller's amounts |
| Transactions.GetBalance | FinanceTracker.Api/Controllers/TransactionController.cs:120-132 | the balance is the sum of every amount of the caller |
| Transactions.BalanceIgnoresOthers | FinanceTracker.Api/Controllers/TransactionController.cs:126-127 | other users' rows do not change the balance |
| Transactions.BalanceAfterCreate | FinanceTracker.Api/Controllers/TransactionController.cs:126-129 | adding a row moves its owner's balance by exactly its amount |
| Transactions.Income | FinanceTracker.Api/Controllers/TransactionController.cs:126 | the sum of positive amounts is never negative |
| Transactions.Expenses | FinanceTracker.Api/Controllers/TransactionController.cs:127 | the sum of negative amounts is never positive |
| Budgets.FindBudget | FinanceTracker.Api/Controllers/BudgetController.cs:51-52 | none exactly when no budget has the key; otherwise the position of the first budget with the key |
| Budgets.GetCurrentBudget | FinanceTracker.Api/Controllers/BudgetController.cs:20-32 | none exactly when the caller has no budget for the current month; otherwise a stored budget for that user, year and month |
| Budgets.UniqueBudgetIsFound | FinanceTracker.Api/Controllers/BudgetController.cs:93-95 | with at most one budget per key, the lookup finds that budget wherever it is stored |
| Budgets.SpentRaw | FinanceTracker.Api/Controllers/BudgetController.cs:97-99 | the month's spending sum is never positive |
| Budgets.BuildBudgetSummary | FinanceTracker.Api/Controllers/BudgetController.cs:88-112 | budget is the found limit, or 0. Spent is non-negative and is minus the spending sum. Remaining is budget minus spent. Status is "over" exactly when spent exceeds the budget, else "ok" |
| Budgets.WindowIsMonth | FinanceTracker.Api/Controllers/BudgetController.cs:90-91 | [first of month, first of next month) holds exactly the dates of the reference month |
| Budgets.SpentRawAppend | FinanceTracker.Api/Controllers/BudgetController.cs:97-99 | spending adds up over concatenated tables |
| Budgets.SpentRawAddRow | FinanceTracker.Api/Controllers/BudgetController.cs:98 | a row changes spending by its amount if it is the user's, negative and inside the month, and by nothing otherwise |
| Budgets.SummaryIgnoresRow | FinanceTracker.Api/Controllers/BudgetController.cs:97-103 | positive or zero amounts, other users' rows and rows outside the month leave the summary unchanged |
| Budgets.Upsert | FinanceTracker.Api/Controllers/BudgetController.cs:51-69 | the table grows by one exactly when the key was absent, and looking the key up afterwards finds a budget with exactly the new limit |
| Budgets.UpsertChangesOnlyTheKey | FinanceTracker.Api/Controllers/BudgetController.cs:51-69 | an existing budget gets only its limit overwritten and every other budget keeps its place and value; otherwise exactly one budget for the key is appended |
| Budgets.UpsertKeepsUnique | FinanceTracker.Api/Controllers/BudgetController.cs:51-69 | the write preserves "at most one budget per user, year and month" |
| Budgets.ValidateBudget | FinanceTracker.Api/Controllers/BudgetController.cs:38-46 | "Request body required." exactly for a missing body; "Budget must be non-negative." exactly for a negative limit; otherwise the limit |
| Budgets.SetBudget | FinanceTracker.Api/Controllers/BudgetController.cs:36-75 | a refusal changes nothing. Otherwise the budgets become the upsert of the limit for the current month, the answer is that month's summary, and transactions are untouched |
| Budgets.SetBudgetSummaryShowsLimit | FinanceTracker.Api/Controllers/BudgetController.cs:71-74 | the summary after the write shows the limit just set |
| Dates.BeforeIsStrictTotalOrder | FinanceTracker.Api/Controllers/TransactionController.cs:51 | date order is irreflexive, transitive and total, so ordering by date is well defined |
| Dates.ParseExact | FinanceTracker.Api/Controllers/StatementController.cs:188-193 | whatever one exact pattern accepts is a valid date that the pattern writes back as the same text |
| Dates.FormatParseRoundTrip | FinanceTracker.Api/Controllers/StatementController.cs:17-25 | a valid date written in a pattern parses back with that pattern to the same date |
| Dates.OtherLayoutFails | FinanceTracker.Api/Controllers/StatementController.cs:17-25 | text written in one layout is refused by a pattern with the other field layout or another separator |
| Dates.FirstMatchIsFirstAccepting | FinanceTracker.Api/Controllers/StatementController.cs:188-193 | the patterns are tried in order: the result is that of the first accepting pattern |
| Dates.FirstMatchNone | FinanceTracker.Api/Controllers/StatementController.cs:188-193 | no explicit result if and only if no listed pattern accepts the text |
| Dates.TryParseDate | FinanceTracker.Api/Controllers/StatementController.cs:186-204 | the explicit patterns are tried on the text with white space at both ends ignored; the culture fallbacks decide only when no pattern accepts it; otherwise the result is a valid date |
| Dates.PaddedDateIgnored | FinanceTracker.Api/Controllers/StatementController.cs:188-193 | when a pattern accepts the trimmed text, white space around a date does not change the result |
| Dates.FormatUnpadded | FinanceTracker.Api/Controllers/StatementController.cs:17-25 | a written date has no white space at either end, so trimming leaves it unchanged |
| Dates.ListedPatternRoundTrip | FinanceTracker.Api/Controllers/StatementController.cs:17-25 | any valid date written in a listed pattern parses back to itself. The exception is month-first text whose day is at most 12: the day-first pattern comes earlier in the list and yields the day and month swapped |
| Dates.MonthFirstRoundTrip | FinanceTracker.Api/Controllers/StatementController.cs:21-24 | month-first text such as 01/16/2024 yields the date itself when the day exceeds 12, and the swapped date otherwise |
| Dates.MonthFirstText | FinanceTracker.Api/Controllers/StatementController.cs:21-24 | month-first text read day-first gives the swapped date when the day is at most 12, and nothing otherwise |
| Dates.MonthWindow | FinanceTracker.Api/Controllers/BudgetController.cs:90-91 | a date lies in [start of month, start of next month) exactly when it lies in that calendar month |
| Numbers.ParseInt32 | FinanceTracker.Api/Controllers/TransactionController.cs:23-24 | a parsed user id lies in the Int32 range |
| Numbers.IntRoundTrip | FinanceTracker.Api/Controllers/TransactionController.cs:23-24 | every Int32 written in decimal parses back to itself |
| Numbers.ParseDecimalInvariant | FinanceTracker.Api/Controllers/StatementController.cs:206-213 | the sign of a parsed amount follows a leading '-' |
| Numbers.DecimalRoundTrip | FinanceTracker.Api/Controllers/StatementController.cs:206-213 | digits, '.', digits parse to their decimal value |
| Numbers.NegativeDecimalRoundTrip | FinanceTracker.Api/Controllers/StatementController.cs:206-213 | the same text with a leading '-' parses to the negated value |
| Numbers.WholeRoundTrip | FinanceTracker.Api/Controllers/StatementController.cs:206-213 | digits without a point parse to their integer value |
| Numbers.NegatedAmount | FinanceTracker.Api/Controllers/StatementController.cs:206-213 | a leading '-' only negates: the rest of the text is parsed as without it |
| Numbers.PartsValue | FinanceTracker.Api/Controllers/StatementController.cs:206-213 | an amount is accepted if and only if the integer part is digits with ',' groups, the fraction is digits, and a digit is present |
| Text.TrimChars | FinanceTracker.Api/Controllers/StatementController.cs:143 | the result is no longer than the text; neither end of a non-empty result is strippable; it is empty exactly when every character is strippable |
| Text.TrimCharsSlice | FinanceTracker.Api/Controllers/StatementController.cs:143 | the result is the slice of the text after a strippable prefix and before a strippable suffix, with neither of its ends strippable: only a strippable prefix and suffix are removed |
| Text.TrimmedUnique | FinanceTracker.Api/Controllers/StatementController.cs:143 | there is only one such slice, so the slice description determines the trimmed text |
| Text.TrimPadding | FinanceTracker.Api/Controllers/StatementController.cs:143 | text with a strippable prefix and suffix around a middle whose ends are not strippable trims to that middle |
| Text.Trim | FinanceTracker.Api/Controllers/TransactionController.cs:94-96 | blank text trims to empty and only blank text does; the result has no white space at either end |
| Text.TrimUnpadded | FinanceTracker.Api/Controllers/TransactionController.cs:94-96 | text with no white space at either end trims to itself |
| Text.TrimCharsIdempotent | FinanceTracker.Api/Controllers/TransactionController.cs:94-96 | trimming twice is trimming once |
| Text.SplitJoin | FinanceTracker.Api/Controllers/StatementController.cs:141-142 | joining the parts of a split with the separator gives back the line |
| Text.JoinSplit | FinanceTracker.Api/Controllers/StatementController.cs:141-142 | splitting a join of separator-free parts gives back the parts |
| Text.Split | FinanceTracker.Api/Controllers/StatementController.cs:141-142 | one part more than there are separators, and no part holds a separator |
| Text.SplitLines | FinanceTracker.Api/Controllers/StatementController.cs:53-55 | every line is non-empty and holds no CR or LF; there are none exactly when the text is line breaks only |
| Text.SplitLinesAtBreak | FinanceTracker.Api/Controllers/StatementController.cs:53-55 | a CR or LF cuts the text: its lines are those before the break followed by those after it, in order |
| Text.SplitLinesOfLine | FinanceTracker.Api/Controllers/StatementController.cs:53-55 | a non-empty run without CR or LF is exactly one line; with the previous row this fixes the lines as the CR/LF-free runs in order |
| Text.SplitAtSeparator | FinanceTracker.Api/Controllers/StatementController.cs:53-55 | splitting at a separator gives the parts before it followed by the parts after it |
| Text.SplitLinesFirst | FinanceTracker.Api/Controllers/StatementController.cs:53-55 | a first line without breaks is the first entry, followed by the lines of the rest |
| Text.RemoveEmpty | FinanceTracker.Api/Controllers/StatementController.cs:54 | no more entries than parts; every entry is a non-empty part and every non-empty part is an entry; empty exactly when every part is empty |
| Text.RemoveEmptyAppend | FinanceTracker.Api/Controllers/StatementController.cs:54 | removing empty entries distributes over concatenation, so order and multiplicity are kept |
| Text.ToLowerIdempotent | FinanceTracker.Api/Controllers/TransactionController.cs:33 | lower-casing twice is lower-casing once |
| Text.ToLowerChar | FinanceTracker.Api/Controllers/TransactionController.cs:46-47 | a modelled capital changes, every other character is kept, and no capital comes out |
| Text.GreekToLower | FinanceTracker.Api/Controllers/TransactionController.cs:46-47 | each Greek and Coptic capital changes, and to a character that is not a capital |
| Text.ToLowerInvariant | FinanceTracker.Api/Controllers/TransactionController.cs:33 | same length; no modelled capital is left; every other character is kept in place |

## Left out

- File gate, stream and HTTP: the `.csv` extension check, reading the upload
  stream and the HTTP result types. The model starts from the file's text,
  and a refusal is its message.
- Persistence: EF Core, async calls, `SaveChanges` and database-generated
  Ids. Tables are sequences.
- Authentication and claims: AuthController, JWT and BCrypt. The user id is a
  parameter. In Get and Create it comes from parsing the claim as an Int32.
- `int.Parse` in UploadStatement, GetTransactions, GetBalance,
  GetCurrentBudget, SetBudget and GetBudgetSummary throws on a bad or
  missing claim. The model takes the parsed id, so that exception is not
  modelled.
- Culture-dependent parsing: the general `DateTime.TryParse` calls and the
  `CurrentCulture` decimal retry are opaque `Fallbacks` functions.
- Dates.ParseExact: `DateTimeStyles.AllowWhiteSpaces` also lets white space
  stand inside a date (for example "2024 -01-05"); that is not modelled, so
  such text is left to the culture fallbacks. White space at either end is
  modelled: Dates.TryParseDate trims the text before the patterns are tried.
  The quotes are stripped after the white space, so a quoted cell such as
  `" 01/02/2024"` reaches the date parse with a leading space, which
  Dates.TryParseDate ignores.
- Numbers.ParseDecimalInvariant: covers a leading '-' or '+', digits with
  ',' groups and a '.' fraction. `NumberStyles.Number | AllowCurrencySymbol`
  also accepts the invariant currency sign '¤', a trailing sign and leading
  or trailing white space. The model refuses those, so for them the culture
  fallback decides.
- Decimal range: the 28-digit precision and range limits of `decimal` are not
  modelled.
- ML.NET (`FeaturizeText`, `NormalizeMinMax`, `OneVersusAll`/`FastTree`),
  loading and saving the model file, and the `(float)` casts: these are the
  abstract `fit` and `apply`.
- Time of day: dates are calendar dates. `DateTime.UtcNow` is the `now`
  parameter. The time of day does not change which month window a row falls
  in, but it does order rows: `Create` stores `DateTime.UtcNow` with its
  time, and the `TryParse` fallbacks can return a time, so the code's
  `OrderByDescending(t => t.Date)` puts the later of two rows of one day
  first. The model has no time of day to order them by.
- `AddMonths(1)` past December 9999 would throw; the model computes
  January 10000.
- Transactions.SortNewestFirst: the order among rows of the same calendar
  day is not stated. In the code they are ordered by time of day (see the
  previous "Time of day" line), which the model drops; only rows with equal
  date and time are left in an unspecified order by SQL's `ORDER BY`.
- Budgets.SetBudget: EF change tracking (the tracked `existing` entity being
  mutated) is modelled as replacing that element of the sequence.
- Budgets.FindBudget: the first match in table order stands for
  `FirstOrDefaultAsync` without an `OrderBy`. On a table that breaks
  uniqueness, the real database could return another match.
- Statement.UploadStatement: concurrency between requests sharing the
  categorizer is not modelled.
- Frontend: the React client is not modelled.
- Text.TrimChars: its own contract gives the ends and the all-strippable
  case. That only a strippable prefix and suffix are removed is stated
  beside it, by Text.TrimCharsSlice.
- Text.SplitLines: its own contract gives the shape of each line. That the
  lines are the CR/LF-free runs in order is stated beside it, by
  Text.SplitLinesAtBreak and Text.SplitLinesOfLine.
- Text.RemoveEmpty: its own contract gives membership. Order and
  multiplicity are stated beside it, by Text.RemoveEmptyAppend.
- Text.ToLowerInvariant: only the capitals of Basic Latin, Latin-1
  (U+00C0-U+00DE), Greek and Coptic (U+0370-U+03FF) and Cyrillic
  U+0400-U+042F are lower-cased. .NET also lower-cases the capitals of other
  blocks (Latin Extended, Cyrillic beyond U+042F such as U+0460-U+04FF,
  Armenian, Georgian and more). The model keeps them.
- Transactions.CategoryFilterIgnoresCase: holds for the modelled
  lower-casing only. The stored side is lowered by SQL Server's `LOWER`
  inside the query and then compared under the column's collation, and
  neither is modelled; the model applies the same map to both sides.
- Categorization.TransactionCategorizer.Train: `fit` is total, so an
  exception from `Fit` or `Save` is not modelled. In the code such an
  exception reaches UploadStatement after `SaveChangesAsync`: the rows stay
  stored and the request fails. If `Save` throws, `_model` has already been
  replaced while `_predictor` still uses the old model.
- Statement.UploadStatement: the failure path of `Train` that follows the
  save is not modelled (see the previous line).
- Schema and wiring: `ApplicationDbContext` declares no `MonthlyBudgets` set,
  and `Program.cs` does not register `TransactionCategorizer`. The model
  assumes both exist. `LimitAmount` is a `decimal(18,2)` column, so a stored
  limit is rounded to two places; the model stores the exact value.
  `Transaction.Amount` has no configured precision, so EF Core's SQL Server
  default of `decimal(18,2)` most likely applies (the migration creating that
  table is not part of this model); a statement amount such as "1.005" would
  then be stored rounded to two places, while `UploadStatement` and `Create` append
  the exact value.
