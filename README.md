# AP aging converter: the row pipeline and the session store

The converter takes accounts-payable aging reports exported as spreadsheets. For
each report an operator marks rows with an `x` and names a client class. The
converter turns the marked rows into bills (positive open balance) and vendor
credits (negative open balance). It keeps every processed report's bills and
credits in the session, and offers the concatenation of all of them as two
downloads. This project models the two parts of `app.py` that carry that logic.

**The extraction (app.py:21-65)** is a chain of pure steps over a data frame:

1. Read the sheet with its fifth row as the header.
2. Rename the blank tenth header `Unnamed: 9` to `Select`, then drop every column
   whose name starts with `Unnamed`.
3. Drop repeated header lines and rows whose `Date` does not parse.
4. Keep the rows whose `Select` cell, as lower-cased text, is exactly `x`.
5. Drop a stale `Amount` column.
6. Read `Open balance` as a number after removing thousands separators.
7. Stamp the class on every row.
8. Split by sign.
9. Project the six export columns `Vendor, BillDate, DueDate, Amount, RefNumber,
   Class`, with the dates written as `MM/DD/YYYY`.

Each step is a function in module `Extraction`. Its contract gives:

- the failure condition, as an if-and-only-if;
- the columns of the result;
- which rows survive, as an if-and-only-if, with every copy of a repeated row and their order kept;
- what happens to every cell.

End to end, `ExtractedIff` says exactly when a sheet is extracted, and
`ExtractedRows` says which records the two batches hold.

**The session store (app.py:8-12, 69-96)** is the class `Session.Accumulator`. It
holds the two lists of batches and has these methods:

- `Submit` runs one report through the pipeline in the source's order. It appends
  the bills batch, then the credits batch, each only when it has rows.
- `ExportBills` and `ExportCredits` concatenate the stored batches.
- `Reset` empties both lists.

Its invariant `Valid` says that every stored batch is a non-empty export frame of
one class. Every stored bill is positive and every stored credit is negative.

Modules:

- `Seqs`: order-keeping filters, subsequences, flattening.
- `Results`: `Option`, `Result`, and the pipeline's errors.
- `Text`: digits, ASCII lower-casing, prefixes.
- `Dates`: calendar dates and `%m/%d/%Y`.
- `Cells`: the cell type and the selection marker.
- `Amounts`: the comma-stripping decimal reader.
- `Frames`: column-named rows and the frame operations used.
- `Extraction`: the pipeline.
- `Session`: the accumulator.

Where the code and its evident intent differ, the model follows the code:

- Selection does not trim. `"X "` is not selected.
- `astype(str)` turns a missing `Select` cell into the text `"nan"` before
  `fillna("")` runs, so `fillna` has no effect and a missing cell is not selected.
- A blank open balance becomes NaN. A NaN row is neither a bill nor a credit.
- An unparsable due date becomes a missing cell and does not fail the sheet.

## Model

| member | source | states |
|---|---|---|
| Dates.FormatMDY | app.py:63-64 | `%m/%d/%Y` writes ten characters: two digits, `/`, two digits, `/`, four digits |
| Dates.FormatThenParse | app.py:63-64 | a written date reads back as the same date, so formatting loses nothing |
| Dates.ParseThenFormat | app.py:63-64 | every text that reads as a date is exactly the text written for that date |
| Dates.FormatInjective | app.py:63-64 | distinct dates are written differently |
| Text.NatText | app.py:21 | the positional part of an `Unnamed: j` header is a non-empty run of digits, a single digit exactly below ten, with no leading zero except in `0` itself |
| Text.NatTextValue | app.py:21 | that run of digits reads back as `j` |
| Text.Lower | app.py:36 | lower-casing keeps the length and maps each character on its own, with nothing trimmed |
| Cells.MarkedIff | app.py:36 | a cell marks its row if and only if it is the text `x` or `X`; numbers, dates, missing cells and every other text do not |
| Cells.MarkerCases | app.py:36 | `x` and `X` are selected; `X `, ` x`, the empty text, `y`, a missing cell and the text `nan` are not |
| Amounts.StripCommas | app.py:45 | the result has no comma |
| Amounts.StripCommasCounts | app.py:45 | every character other than a comma occurs in the result exactly as often as in the input, and the comma not at all |
| Amounts.StripCommasKeepsOrder | app.py:45 | removing commas keeps the order of the remaining characters |
| Amounts.ParseDecimal | app.py:45 | a text that reads as a number is non-empty, made of digits and points with at most a leading sign, and its value has the sign of its text |
| Amounts.ParseUnsignedDomain | app.py:45 | an unsigned text reads as a number if and only if it is digits and points only, with at most one point and at least one digit |
| Amounts.ParseDecimalDomain | app.py:45 | a text reads as a number if and only if it is an optional leading sign followed by such an unsigned text; `""`, `"."`, `"-"` and `"1.2.3"` read as nothing |
| Amounts.PointedUnsignedValue | app.py:45 | digits, a point and digits, not both runs empty, read as the whole part plus the fraction over ten to the fraction's length |
| Amounts.WholeUnsignedValue | app.py:45 | a non-empty digit run alone reads as the number it denotes |
| Amounts.SignedParse | app.py:45 | a leading minus negates what the rest reads as; a plus or no sign leaves it unchanged |
| Amounts.PointedDecimalValue | app.py:45 | a sign, digits, a point and digits read as the signed whole part plus fraction |
| Amounts.WholeDecimalValue | app.py:45 | a sign and a digit run read as the signed number the digits denote |
| Amounts.WholeExample | app.py:45 | `"1250"` reads as 1250 |
| Amounts.PointedExample | app.py:45 | `"12.5"` reads as 12.5 |
| Amounts.FractionExample | app.py:45 | `".5"` reads as 0.5 |
| Amounts.TwoPointsExample | app.py:45 | `"1.2.3"` reads as nothing |
| Amounts.BalanceOf | app.py:45 | conversion fails exactly for a date-time cell or for a text that, without its commas, is not a decimal number; a number and a missing value (NaN) stay as they are; a converted text becomes the number its comma-free form reads as |
| Amounts.CentsTextRoundTrip | app.py:45 | an amount written as units, point and two-digit hundredths, with an optional minus, reads back as exactly that amount |
| Amounts.StripGrouped | app.py:45 | removing the commas of a digit run grouped in threes gives back the digit run |
| Amounts.GroupedStripsToPlain | app.py:45 | an amount printed with thousands separators loses exactly its separators to comma stripping |
| Amounts.CommasIgnored | app.py:45 | any text that is an amount in hundredths once its commas are gone converts to exactly that amount, wherever the commas stand |
| Amounts.ReadsAs | app.py:45 | a text whose comma-free form reads as a value converts to that value |
| Amounts.GroupedAmountValue | app.py:45 | for every amount in hundredths, its text with thousands separators converts to that amount |
| Amounts.ThousandsSeparator | app.py:45 | `"1,250.00"` becomes 1250 and `"-300.00"` becomes -300 |
| Frames.FilterRows | app.py:31-36 | boolean row indexing keeps exactly the rows that satisfy the mask, each as many times as it occurs, in their order, under the same columns |
| Frames.RenameColumn | app.py:25 | renaming keeps the column's position and cells and leaves every other column and cell untouched |
| Frames.DropColumnsWhere | app.py:28 | exactly the columns the mask rejects are removed; the remaining columns keep their order, and each row keeps its cells under them |
| Frames.DropColumn | app.py:43 | dropping a column removes it and nothing else |
| Frames.SetColumn | app.py:48 | assigning a scalar column puts the value in every row and leaves the other cells alone; a new column goes last |
| Extraction.BlankTenthHeaderIsMarker | app.py:21-25 | a blank header cell in the tenth column is named `Unnamed: 9`, the marker column |
| Extraction.TrimmedLength | app.py:21 | a line is cut after its last non-empty cell: everything after the cut is blank and the last kept cell is not |
| Extraction.Width | app.py:21 | the sheet is as wide as its widest trimmed line, title rows included |
| Extraction.HeaderLine | app.py:21 | the header line is padded with blanks (or cut) to exactly the sheet's width |
| Extraction.HeaderNames | app.py:21 | every header cell names its column, blank cells positionally; otherwise the first cell that cannot name a column is reported, every cell before it naming its column |
| Extraction.RowOf | app.py:21 | a body line becomes a row keyed by exactly the column names, each name holding the cell under it |
| Extraction.BodyFrame | app.py:21 | one row per body line, in order, with the cell of column `j` under the `j`-th name |
| Extraction.ReadSheet | app.py:21 | a sheet with no fifth row fails; otherwise it reads exactly when every padded header cell names a column and the names are distinct, and a header that fails names its first cell that cannot name a column; there is one column per position up to the sheet's width and every later line is a record, cell by cell |
| Extraction.MarkerColumnFromWidth | app.py:21-25 | when some line reaches the tenth column and the header is blank there, the tenth column is the marker column, however short the header line is |
| Extraction.NormaliseColumns | app.py:24-28 | no remaining column starts with `Unnamed`; the marker column is present as `Select` with its cells; every other column and cell is kept; a sheet with both a marker and a `Select` column fails |
| Extraction.Normalised | app.py:21-28 | reading and normalising succeed together or not at all, with one row per body line and no `Unnamed` column |
| Extraction.DropJunkRows | app.py:31-33 | the sheet fails if and only if it has no `Date` column; otherwise a row survives if and only if its date is not the text `Date` and parses, every copy of it, in order |
| Extraction.KeepSelected | app.py:36 | the sheet fails if and only if it has no `Select` column; otherwise a row survives if and only if it is marked, every copy of it, in order |
| Extraction.SelectedRows | app.py:21-36 | selection succeeds exactly when the normalised sheet has `Date` and `Select` columns, and otherwise reports the missing one; the result is every copy of every dated, marked row of the normalised sheet, in sheet order |
| Extraction.ParseBalanceRows | app.py:45 | the column converts if and only if every cell converts; each row's balance is replaced by its converted value and nothing else changes |
| Extraction.ParseBalances | app.py:45 | a frame without `Open balance` fails; otherwise the balance converts row by row under the same columns |
| Extraction.DropStaleAmount | app.py:42-43 | any `Amount` column is gone and every other column and cell is kept |
| Extraction.SameBalances | app.py:42-45 | dropping `Amount` does not touch the open balances |
| Extraction.Prepare | app.py:42-48 | fails exactly when the balance column is missing or some balance does not convert; otherwise no `Amount` column, the class is in every row, each balance is converted, and the other cells are unchanged |
| Extraction.BalancesParsed | app.py:45 | converting the balances keeps every other cell and puts each row's converted balance in place |
| Extraction.PreparedShape | app.py:42-48 | after the drop, the conversion and the stamp there is no `Amount` column, the balance and class columns are present, and there is one row per selected row |
| Extraction.PreparedStamp | app.py:45-48 | every prepared row carries the class label and its converted balance |
| Extraction.PrepareKeepsCells | app.py:42-48 | stamping the class after converting the balances keeps every other cell of the selected rows |
| Extraction.SplitBySign | app.py:51-52 | bills are exactly the rows with a positive balance and credits exactly those with a negative one, under the same columns |
| Extraction.SplitPartition | app.py:51-52 | bills and credits together are exactly the rows with a non-zero numeric balance, counted with multiplicity; rows with a zero or missing balance are in neither; each side keeps the input order |
| Extraction.FormatDate | app.py:63-64 | an unparsable date becomes a missing cell, never an error; a parsable one becomes a ten-character text that reads back as the same date |
| Extraction.OutputRow | app.py:55-62 | a record has exactly the six export columns |
| Extraction.OutputRowCells | app.py:55-62 | `Vendor`, `RefNumber`, `Amount` and `Class` come from the vendor name, `Num`, the balance and the class; both dates are formatted |
| Extraction.OutputRows | app.py:54-65 | one record per row, the k-th record taken from the k-th row |
| Extraction.OutputRowsCons | app.py:54-65 | a row put in front puts its record in front |
| Extraction.OutputSides | app.py:51-65 | the records of the bills and of the credits together are the records of the rows with a non-zero balance, each exactly once |
| Extraction.FirstMissing | app.py:61 | reports a projected column that is absent, and reports none if and only if all are present |
| Extraction.FormatOutput | app.py:54-65 | the projection fails if and only if a source column is missing, and reports one; otherwise the columns are exactly the export columns and the rows are the records of the input rows, one each, in order |
| Extraction.BatchOf | app.py:69-75 | an empty side never fails; a non-empty side fails exactly when a projected column is missing; a success has the export columns and the records of the side's rows, in order |
| Extraction.FormatSplit | app.py:69-77 | the only failure is a missing projected column; on success each side holds the records of its rows, in order, under the export columns |
| Extraction.SplitSheet | app.py:21-52 | the pipeline either decides an outcome that is not a success, or splits into two well-formed sides with the same columns |
| Extraction.SplitSheetCases | app.py:21-52 | the sheet splits exactly when some rows are selected and their balances all convert; it selects nothing exactly when selection succeeds empty; a failure carries the error of the selection or of the balance conversion |
| Extraction.Extract | app.py:21-77 | the outcome is "nothing selected" if and only if selection succeeds with no row; a success has well-formed sides with the export columns |
| Extraction.PreparedRowFacts | app.py:31-48 | every prepared row carries the caller's class and a date that parses |
| Extraction.RecordOfReady | app.py:54-65 | the record of such a row has the export columns, the class and a `BillDate` that reads as a date; its amount is the row's balance |
| Extraction.FormattedRows | app.py:54-65 | the k-th record of ready rows belongs to the sheet's class, has a readable bill date and the k-th row's balance as its amount |
| Extraction.DividedRows | app.py:48-52 | every bill and every credit carries the class and a parsable date, with the sign of its side |
| Extraction.SignedRecords | app.py:51-65 | the records of stamped rows of one sign belong to the sheet and have an amount of that sign |
| Extraction.SplitRecords | app.py:51-77 | formatting a split of stamped rows gives positive bill records and negative credit records of the sheet's class |
| Extraction.ExtractedBatches | app.py:48-65 | a successful sheet yields export-column batches of its class with readable bill dates; every bill amount is positive and every credit amount negative |
| Extraction.ExtractedRows | app.py:21-77 | on success, the bills batch is the records of the prepared rows with a positive balance and the credits batch those with a negative one, in sheet order; together they are the records of the non-zero rows, each exactly once |
| Extraction.ExtractedIff | app.py:21-77 | a sheet is extracted exactly when it selects some rows, all their balances convert, and either no selected balance is non-zero or every projected column is present |
| Extraction.SplitFormats | app.py:51-77 | the two sides of a prepared frame format exactly when no row has a non-zero balance or every projected column is present |
| Extraction.UnreadableBalanceFails | app.py:45 | one selected balance that cannot be read fails the whole sheet |
| Session.Appended | app.py:69-76 | a batch with rows adds exactly itself to its list; one without rows adds nothing |
| Session.Consolidated | app.py:83-91 | the concatenation has the export columns, and a row is in it if and only if it is in one of the batches |
| Session.ConsolidatedAppend | app.py:71-89 | appending a batch appends its rows after all earlier rows of the export |
| Session.ConsolidatedWellFormed | app.py:83-91 | the concatenation of stored batches is a well-formed frame |
| Session.BatchesAlike | app.py:69-77 | both sides share their columns, so the credits cannot fail after the bills were appended |
| Session.StoredBatches | app.py:69-77 | a non-empty batch of a successful sheet satisfies the store's invariant |
| Session.StoredSplit | app.py:69-77 | the non-empty batches formatted from a split of stamped rows satisfy the store's invariant |
| Session.StoredSide | app.py:69-77 | a formatted non-empty side of stamped rows is a stored batch of that side's sign |
| Session.Accumulator.constructor | app.py:8-12 | a new session has two empty lists |
| Session.Accumulator.Submit | app.py:19-80 | without a class nothing happens; otherwise the outcome is the extraction's; on success each list gains its batch exactly when the batch has rows; on an error or with nothing selected both lists stay as they were; the invariant is kept |
| Session.Accumulator.Record | app.py:69-77 | bills are formatted and appended, then credits; the outcome is the split's formatting outcome, and on failure nothing was appended |
| Session.Accumulator.StoreBills | app.py:69-72 | the bills side is formatted as its batch, appended when it has rows and formats, and the credits list is untouched; the invariant is kept |
| Session.Accumulator.StoreCredits | app.py:74-77 | the credits side is formatted as its batch, appended when it has rows and formats, and the bills list is untouched; the invariant is kept |
| Session.Accumulator.ExportBills | app.py:83-85 | there is no download if and only if no bills batch is stored; otherwise the rows are all stored rows in order, under the export columns, every amount positive |
| Session.Accumulator.ExportCredits | app.py:88-90 | the same for credits, every amount negative |
| Session.Accumulator.Reset | app.py:94-96 | both lists are empty afterwards, so a second reset changes nothing |

## Left out

- The Streamlit interface is not modelled: page setup, the upload widget, the class text box, the messages, the tables shown and the buttons (app.py:4-6, 14-18, 39, 67, 72, 77, 80, 86, 91, 97). The message of the error branch is the `Failed` outcome; the warning for no selected rows is the `NoneSelected` outcome.
- The script-rerun mechanics of the host framework are not modelled. Each `Submit` call is one processing of one upload.
- Decoding the workbook (`pd.read_excel`) is not modelled. The model takes the first sheet as a grid of cells, already typed as text, number, date-time or blank.
- Extraction.ReadSheet: pandas renames duplicate header names (`a`, `a.1`); the model rejects them with `DuplicateHeader`.
- Extraction.ReadSheet: a number or date header cell is rejected with `HeaderNotText` instead of becoming a non-text column name.
- Extraction.ReadSheet: every line counts toward the width once its trailing empty cells are dropped, and a line shorter than the width reads as blank beyond its end. Trailing all-blank lines stay rows in the model, while pandas drops them; the date filter removes them whenever the date reader rejects a blank cell.
- The date rules of `pd.to_datetime` are not modelled. The pipeline takes a date reader `parse` as a parameter and applies it cell by cell. pandas infers one format per column, which the model does not capture.
- Amounts.BalanceOf: reads only plain decimals with an optional sign. Texts that Python's `float` also accepts are rejected: exponents, `inf`, `nan`, surrounding spaces and underscores.
- Amounts.BalanceOf: amounts are exact reals. Binary floating point and its rounding are not modelled.
- Cells.Marked: numbers and date-times are never selected, because their text always contains a digit. Their exact `str` form is not modelled.
- Text.Lower: lower-cases ASCII letters only.
- Extraction.NormaliseColumns: a sheet that has both a marker column and a `Select` column fails at normalisation. pandas fails on such a sheet one step later, at the selection (app.py:36); either way the outcome is an error and nothing is stored.
- Extraction.FormatOutput: takes its six cells from the source columns only. A sheet that has `RefNumber` but no `Num`, or `DueDate` but no `Due date`, succeeds in pandas with the existing column and fails in the model with `MissingColumn`. A sheet that has both `Date` and `BillDate`, or both `Due date` and `DueDate`, fails in pandas at app.py:63-64 and succeeds in the model. A sheet with both `Num` and `RefNumber` exports two `RefNumber` columns in pandas and one in the model.
- CSV writing and the `utf-8-sig` encoding of the downloads (app.py:85, 90) are not modelled. An export is the consolidated frame itself.
