# Tutor class attendance register — a verified model

This project models the core of a small attendance register in Dafny. Learners are identified by a barcode, and the register has three parts:

- **The web app** (`app.py`). It keeps a CSV sheet with one row per learner and one column per class date, labelled like `12-Aug`. Scanning a barcode writes `"1"` into today's column. The app also:
  - shows who is present and who is absent;
  - offers filter lists;
  - computes a per-learner tracking summary.
- **The command-line scanner** (`attendance_scanner.py`). It marks the same sheet, but with its own matching rules and save policy. It can also list today's present learners.
- **The database layer** (`db.py`). It holds:
  - a `learners` table keyed by normalised barcode;
  - an `attendance` table of marks, which it pivots into a wide sheet;
  - an `inout_log` of IN/OUT scans, whose next action toggles per learner and day;
  - seeding of the learners table from a CSV file.

The model works on in-memory tables and never reads the clock: the day and month are parameters. A sheet is a `Sheets.Table`: an ordered list of column names plus rows that map column names to strings. Where the source changes a DataFrame or a stored table in place, the model uses a class: `Sheets.Sheet`, `Sheets.SheetFile` (the CSV on disk, `None` when absent) or `Db.Database`. Each method states its new state in terms of a specification function, and lemmas state the properties of those functions.

Modules:

| Module | Contents |
|---|---|
| `Wrappers` | `Option` and `Result` |
| `Text` | Python's `str.strip` and `lstrip("0")`, decimal digits, code-point string order |
| `Seqs` | A stable insertion sort by a given order, positions, counting, distinctness |
| `Barcodes` | `_norm` and `norm_barcode` |
| `Sheets` | Tables, columns, row labels, marking cells, the `Sheet` and `SheetFile` classes |
| `Dates` | Today's labels; `strptime("%d-%b")` and `tm_yday` through an explicit month table |
| `App` | The web app's sheet logic |
| `Scanner` | The scanner's sheet logic |
| `InOut` | The IN/OUT log |
| `Db` | Learners, marks, the wide sheet and CSV seeding |

## Model

| member | source | states |
|---|---|---|
| Barcodes.Norm | app.py:16-17 | The normalised barcode is never empty, has no leading `'0'` unless it is `"0"`, and does not end in whitespace |
| Barcodes.NormBarcode | db.py:9-14 | `None` maps to `""` and nothing else does; any other value is normalised like `_norm` |
| Barcodes.NormOfNormal | db.py:9-14 | A trimmed, non-empty code with no leading zero (or `"0"` itself) is its own normal form |
| Barcodes.NormIdempotent | app.py:16-17 | Normalising twice equals normalising once, whenever the normal form does not start with whitespace |
| Barcodes.NormNotIdempotent | app.py:16-17 | Counterexample: `"0 1"` normalises to `" 1"`, which normalises to `"1"` |
| Barcodes.NormIgnoresPadding | app.py:16-17 | Whitespace around a code never changes its normal form |
| Barcodes.NormIgnoresLeadingZeros | db.py:12-14 | Zeros in front of a code that does not start with whitespace never change its normal form |
| Dates.TodayLabel | attendance_scanner.py:15-20 | The label is the day in decimal with no leading zero, then `-`, then the month's three-letter abbreviation |
| Dates.AppTodayLabel | app.py:13-14 | The app's label, `strftime("%d-%b")` with leading zeros stripped, is the scanner's label on every valid date |
| Dates.AppLabelIsTodayLabel | app.py:13-14 | The app's `strftime("%d-%b").lstrip("0")` label equals the scanner's label on every valid date |
| Dates.DashIndex | app.py:57 | The dash position found is the first `-` of the name, or the name's length when there is none |
| Dates.IsDateColumnName | app.py:57 | A column is date-named exactly when some `-` follows a non-empty, dash-free, all-digit prefix |
| Dates.ParseMonth | app.py:58 | `%b` accepts exactly the twelve abbreviations, in any letter case, and yields the month number |
| Dates.ParseLabel | app.py:58 | A parsed label has a month from 1 to 12 and a day within that month's length |
| Dates.ParseLabelExactly | app.py:58 | A text parses as a day and month exactly when that day exists in the calendar and the text is, up to letter case, that day's label, or that label with a `0` in front of a one-digit day |
| Dates.TodayLabelParses | app.py:54-58 | Today's label passes the date-column test and parses back to the same day and month on a calendar with 29 February |
| Dates.OrdinalOrder | app.py:58 | Ordering by `tm_yday` orders by month, then by day |
| Dates.DayOfYearAsWritten | app.py:58 | The key `tm_yday` exists exactly when the label parses on the year-1900 calendar, and lies between 1 and 365 |
| Dates.DayOfYear | app.py:58 | The leap-aware key exists exactly when the label parses on a calendar with 29 February, and lies between 1 and 366 |
| Dates.LeapDayRejectedAsWritten | app.py:58 | `29-Feb` passes the date-column test, but `strptime` cannot parse it on the year-1900 calendar |
| Dates.DayOfYearAgreesWithSource | app.py:58 | On every label the source can parse, the leap-aware key orders labels exactly as the source's key does |
| Dates.LeapCalendarAccepts | app.py:58 | Every label the 1900 calendar accepts parses to the same date on the leap calendar |
| Sheets.WithColumn | attendance_scanner.py:26-29 | `df.insert(pos, col, "")`: the column is placed at `pos`, its cells are empty, and every other cell is kept |
| Sheets.WithColumnEnsured | app.py:42-44 | The column is added at the end, with empty cells, only when it is absent; otherwise the table is unchanged |
| Sheets.WithColumnEnsuredIdempotent | attendance_scanner.py:39-44 | Ensuring a column twice has the same effect as ensuring it once |
| Sheets.LabelForRow | attendance_scanner.py:46-50 | The label is the stripped name and the stripped surname joined by a space, then stripped; it is `""` exactly when both are blank |
| Sheets.LabelFacts | app.py:51-52 | The joined label is the name alone, the surname alone, or both, depending on which of them is blank |
| Sheets.MarkRow | app.py:73-77 | A matched row reads as present in today's column afterwards. A cell that already read as present, and the whole row with it, is left as it was; any other cell becomes exactly `"1"`. Every other cell is unchanged |
| Sheets.MarkedAtEffect | app.py:71-77 | After the loop, each matched row reads as present today: a cell that already did is kept as it was, any other holds exactly `"1"`. No unmatched row and no other column changes |
| Sheets.WithMark | app.py:90 | The rows kept are exactly those whose cell is exactly `"1"` (for present) or is anything else (for absent), each kept row as often as it occurs and every other row not at all |
| Sheets.WithMarkAppend | app.py:90 | The mark filter keeps table order: filtering `a + b` is filtering `a` followed by filtering `b` |
| Sheets.WithMarkOne | app.py:90 | A single row is kept exactly when its mark matches, so with `WithMarkAppend` the filter is fixed row by row |
| Sheets.WithMarkSplits | app.py:90 | The present rows and the absent rows together are a permutation of the rows |
| Sheets.Sheet.InsertColumn | attendance_scanner.py:29 | The new sheet is `WithColumn` of the old one |
| Sheets.Sheet.EnsureColumn | app.py:42-44 | The new sheet is `WithColumnEnsured` of the old one |
| Sheets.Sheet.SetCell | app.py:76 | Exactly one cell of an existing column is overwritten; the columns and every other cell stay |
| Sheets.Sheet.MarkCell | attendance_scanner.py:82-89 | Reports whether the row's cell already read as present. The row becomes `MarkRow` of itself, and every other row and the columns stay as they were |
| App.Missing | app.py:33-35 | The required columns that the frame lacks, each once |
| App.MissingInOrder | app.py:33-35 | The missing columns keep the order in which they are required: any two of them occur in that order in the required list |
| App.MissingIdentity | app.py:33-35 | For `load_sheet` the appended columns are Barcode, Name, Surname, in that order, each only when absent |
| App.WithColumnsEnsured | app.py:33-35 | The columns become the old columns followed by the missing required ones in order. Old cells are kept, every added cell is `""`, and a frame that has them all is unchanged |
| App.Loaded | app.py:28-36 | A missing file loads as the empty frame. A loaded sheet gets the missing identity columns appended as Barcode, Name, Surname, each only where absent, with `""` cells, keeps its rows and cells, and is unchanged when it already had them |
| App.LoadSheet | app.py:28-36 | The loaded `Sheet` holds `Loaded(content)` |
| App.Hits | app.py:67 | The matches are exactly the rows whose normalised barcode equals the normalised scan, in increasing row order |
| App.MarkedTable | app.py:71-77 | Every matched row reads as present today, keeping a cell that already did and writing exactly `"1"` otherwise. The columns, the row count and every other cell are kept |
| App.Who | app.py:72 | The name shown for a row is never empty |
| App.MarkPresentSpec | app.py:60-79 | A blank scan gives `EmptyScan` and no write. Only a `Marked` outcome writes the file, and it reports at least one row |
| App.MarkPresent | app.py:60-79 | The outcome and the new file content are those of `MarkPresentSpec` on the old content |
| App.MarkHits | app.py:70-77 | The marking loop leaves the sheet as `MarkedAt` the hits, and produces one report per hit |
| App.MarkPresentSheetEmpty | app.py:63-65 | "Empty or not found" is returned exactly for a non-blank scan over a missing file or an empty frame |
| App.MarkPresentNotFound | app.py:67-69 | "Student ID not found" is returned exactly when the sheet is non-empty and no row's normalised barcode matches |
| App.MarkedTableEffect | app.py:71-77 | There is one report per matched row, in row order. Each report names its row and says whether that row was already present |
| App.MarkPresentMarks | app.py:66-78 | A successful call saves the loaded sheet plus today's column. Every match reads as present, with an already-present cell kept and any other set to exactly `"1"`; every other cell is kept, and there is one faithful report per match |
| App.MarkPresentIdempotent | app.py:73-77 | A second identical call saves the same sheet, and reports every matched row as already marked |
| App.RemarkFixpoint | app.py:73-76 | Marking a sheet that has already been marked changes no cell |
| App.RemarkReports | app.py:73-74 | On a marked sheet, the reports say "already marked" for every match |
| App.Selection | app.py:84-89 | The Grade and Area filters keep the rows equal to the argument, only when the argument is non-empty and the column exists. Each kept row appears as often as in the sheet, and every other row not at all |
| App.SelectionAppend | app.py:84-89 | The filters keep table order: filtering `a + b` is filtering `a` followed by filtering `b` |
| App.SelectionOne | app.py:84-89 | A single row is kept exactly when it passes both filters |
| App.GetPresentAbsent | app.py:81-90 | A missing date column gives (empty, all rows). Otherwise present rows are the selected rows with cell exactly `"1"`, and absent rows are the other selected rows |
| App.PresentAbsentPartition | app.py:89-90 | Present and absent are disjoint, and together they are a permutation of the filtered subset |
| App.PresentAbsentInOrder | app.py:81-90 | Both lists keep sheet order: splitting the sheet's rows anywhere splits each list at the same point |
| App.PresentAbsentOne | app.py:84-90 | A single row is present when it passes the filters and its cell is exactly `"1"`, absent when it passes them with any other cell, and otherwise in neither list |
| App.NonBlank | app.py:93 | The values kept are exactly those that are not blank |
| App.UniqueSorted | app.py:92-94 | `"(All)"` comes first, followed by the distinct non-blank values in strictly increasing order |
| App.DateNames | app.py:55-57 | The columns kept are exactly those with a digit-only prefix before a dash, each no more often than in the sheet |
| App.DateNamesAppend | app.py:55-57 | The filter keeps sheet order: the date names of two column lists joined are those of the first followed by those of the second |
| App.ColumnBeforeIsPreorder | app.py:58 | Ordering by day of the year is total and transitive |
| App.DateColumnsAsWritten | app.py:54-58 | `get_date_columns` as written returns exactly when every date-named column parses on the year-1900 calendar, and then lists those columns, each as often as in the sheet |
| App.DateColumns | app.py:54-58 | The leap-aware version returns exactly when every date-named column parses with 29 February allowed, and then lists those columns sorted by day of the year |
| App.DateColumnsSorted | app.py:54-58 | The date columns are a permutation of the date-named columns, each parses, and they are sorted by day of the year; columns on the same day keep their sheet order |
| App.DateColumnsAgreeWithSource | app.py:54-58 | Wherever the source's `get_date_columns` returns, the corrected version returns the same list |
| App.LeapDayColumnBreaksTracking | app.py:98 | On a sheet with a `29-Feb` column, the source's date list fails, while the corrected one lists the column |
| App.PresentFlags | app.py:101 | Each date cell counts as present exactly when its stripped value is `"1"` |
| App.Track | app.py:101-108 | Present is the number of date columns whose stripped cell is `"1"`, present plus absent is the number of date columns, and name, surname and barcode are the row's cells |
| App.ComputeTrackingAsWritten | app.py:97-100 | The source's tracking view: it fails exactly when `get_date_columns` as written fails; with no date columns it is empty, otherwise one row per sheet row |
| App.TrackingAgreesWithSource | app.py:97-118 | Wherever the source's tracking view succeeds, the leap-aware one gives the same summary |
| App.ComputeTracking | app.py:97-100 | With no date columns the summary is empty. Otherwise it has one row per sheet row, and it fails exactly when a date column does not parse |
| App.TrackingRowFacts | app.py:101-104 | Present is the number of date columns whose stripped cell is `"1"`, present plus absent is the number of date columns, and name, surname and barcode are copied |
| App.TrackingLastPresent | app.py:106-108 | "Last present" is the latest date column, in sorting order, that holds a 1. It is `"—"` when there is none |
| App.NoDateColumnIsNoneYet | app.py:107 | No date column is named `"—"`, so the marker cannot be confused with a date |
| Scanner.FixColumns | attendance_scanner.py:25-33 | The columns become the Barcode step's columns followed by Name and then Surname, each only where missing. A missing Barcode ends up at position 1, or 0 if there were no columns. Every old cell is kept, every added cell is `""`, and a complete sheet is unchanged |
| Scanner.BarcodeEnsured | attendance_scanner.py:26-29 | Barcode exists afterwards. When it was missing, the columns are the old ones with Barcode inserted at position 1, or at 0 when there were no columns. Every old cell is kept and the new cells are `""` |
| Scanner.LoadSheet | attendance_scanner.py:22-34 | The loaded `Sheet` holds `FixColumns` of the file's table |
| Scanner.ExactHits | attendance_scanner.py:68 | The matches are exactly the rows whose raw Barcode cell equals the stripped scan, in increasing order |
| Scanner.ScanTable | attendance_scanner.py:64-65 | The sheet a scan works on has today's column and the three identity columns, and keeps every row |
| Scanner.ScanOn | attendance_scanner.py:68-89 | "Not found" exactly when no raw barcode equals the scan. Otherwise the matches split into already-present and newly marked, and the newly marked count is `marked_count` |
| Scanner.ScanSpec | attendance_scanner.py:53-92 | A blank scan and a missing file change nothing. The file is written exactly when some row was newly marked, and then holds the loaded sheet, with today's column, marked at the matches |
| Scanner.MarkPresent | attendance_scanner.py:53-92 | The outcome and the new file content are those of `ScanSpec` on the old content |
| Scanner.MarkMatches | attendance_scanner.py:80-89 | The counting loop marks every match and returns the already-present and newly marked matches |
| Scanner.ScanSaves | attendance_scanner.py:80-92 | A file written by a scan that newly marked a row holds the loaded sheet with today's column. Every matched row reads as present today, and every other cell is unchanged |
| Scanner.RepeatScanIsNoOp | attendance_scanner.py:91-92 | Scanning the same code again the same day finds the same rows, marks none and leaves the file as it was |
| Scanner.EchoAsWritten | attendance_scanner.py:93-98 | The echo loop names every match that reads as present after marking |
| Scanner.EchoRepeatsAlreadyPresent | attendance_scanner.py:93-98 | When some row was newly marked, the echo also names each row that was already present |
| Scanner.EchoExample | attendance_scanner.py:82-98 | Two rows share barcode `7` and the first was already present: the echo names both, though only the second was newly marked |
| Scanner.NewlyAreChangedRows | attendance_scanner.py:88-89 | A row is newly marked exactly when the written file differs from the loaded sheet in that row |
| Scanner.RowBeforeIsPreorder | attendance_scanner.py:114-116 | Ordering by Name, then Surname, is total and transitive |
| Scanner.TodayList | attendance_scanner.py:100-112 | A missing file lists nothing. "No scans yet" is returned exactly when the loaded sheet lacks today's column. A listing never has more rows than the sheet |
| Scanner.TodayListFacts | attendance_scanner.py:112-116 | The listing is a permutation of the rows whose today cell is exactly `"1"`, sorted by Name, then Surname. The sort is stable: rows with the same Name and Surname keep their sheet order |
| InOut.Selected | db.py:167-171 | An entry is selected exactly when its barcode and date are the ones asked for |
| InOut.Latest | db.py:167-172 | No latest entry exactly when nothing is selected. Otherwise the latest has the greatest `ts_iso` of the selected entries, and among equal timestamps it is the last one appended |
| InOut.NextAction | db.py:164-177 | The next action is always IN or OUT |
| InOut.NextActionIsOutIffIn | db.py:175-177 | The next action is OUT exactly when the latest entry for the normalised barcode on that date is IN |
| InOut.FirstOfDayIsIn | db.py:175-176 | With no entry for that barcode on that date, the next action is IN |
| InOut.DayBarcodes | db.py:181-185 | The barcodes listed are exactly those with an entry on that date |
| InOut.CurrentlyIn | db.py:179-194 | Each listed entry is the latest entry of its barcode that day, and is an IN. No barcode is listed twice, and a barcode is listed exactly when its latest entry that day is IN |
| InOut.NextActionIsOutIffCurrentlyIn | db.py:164-194 | The next action is OUT exactly when the learner is listed as currently in |
| InOut.AppendAsWritten | db.py:157-160 | The insert as written binds seven values to six placeholders, so it always fails |
| InOut.Append | db.py:154-162 | The log grows by exactly one entry, holding the normalised barcode, and earlier entries are kept |
| InOut.AppendOtherKeepsNextAction | db.py:167-171 | An entry for another barcode or another date does not change a learner's next action |
| InOut.AppendLaterIsLatest | db.py:170 | An entry later than every other becomes the latest for its barcode and date |
| InOut.Toggle | db.py:154-177 | A kiosk scan appends exactly one entry, whose action is the next action |
| InOut.NextActionAlternates | db.py:164-177 | On an alternating log with increasing timestamps, the next action is IN exactly when the learner has an even number of entries that day |
| InOut.ToggleKeepsAlternating | db.py:154-177 | Toggling at a later timestamp keeps every learner's day in the order IN, OUT, IN, … and keeps timestamps increasing |
| Db.FirstRepeat | db.py:28 | None exactly when the keys are distinct. Otherwise it gives the first position whose key occurred earlier |
| Db.KeyOf | db.py:93 | The stored key of an input row is its normalised barcode: never empty, with no leading `0` unless it is `"0"` |
| Db.LearnerOf | db.py:92-98 | A stored learner holds the row's normalised barcode and its Name, Surname, Grade, Area and Date Of Birth cells, `""` where missing |
| Db.LearnersFrom | db.py:83-102 | A missing Barcode column with rows is an error. Success happens exactly when the normalised keys are distinct, and the result is one learner per input row, in order. A duplicate-key error names a repeated key |
| Db.InsertAll | db.py:88-99 | The insert loop returns exactly `LearnersFrom` of the input |
| Db.Database.ReplaceLearners | db.py:83-102 | On success the learners are exactly the input rows with normalised keys, and nothing from before remains. On error the table is unchanged |
| Db.Database.constructor | db.py:21-70 | A fresh database is valid and holds no learners, no marks and no log entries |
| Db.Without | db.py:108 | The rows kept are exactly those whose key differs, and every row is kept when the key is absent |
| Db.WithoutAppend | db.py:108 | The delete keeps table order: deleting from two tables joined gives the first's survivors followed by the second's |
| Db.WithoutRemovesAtMostOne | db.py:104-112 | Under a primary key, a delete removes one row if the key is present and none otherwise, and the keys stay distinct |
| Db.Database.DeleteLearner | db.py:104-112 | Only the row keyed by the normalised argument is removed, and the count returned is the number removed: 1 or 0 |
| Db.Database.InsertPresentMark | db.py:120-128 | Exactly one mark `"1"` is appended, under the normalised barcode |
| Db.Database.AppendInOut | db.py:154-162 | The log becomes `Append` of the old log, and no other table changes |
| Db.LearnersTable | db.py:74-81 | An empty table keeps the stored column names. Otherwise the columns are renamed and there is one row per learner with its fields |
| Db.Labels | db.py:142-147 | The pivot's date columns are each mark label once, in strictly increasing order |
| Db.LastMark | db.py:142-147 | No value exactly when no mark has that barcode and label. Otherwise the value is that of the last such mark |
| Db.WideCell | db.py:142-150 | A wide cell is `""` when no mark has that barcode and label, and otherwise the value of the last such mark |
| Db.WideSheet | db.py:130-150 | With no learners or no marks, the learners table is returned unchanged |
| Db.WideSheetFacts | db.py:142-150 | Every learner keeps its row and order. Each label column holds the last mark for that learner, or `""`, and the columns are distinct |
| Db.Rekey | db.py:222 | Each stripped header holds the cell of the last column with that stripped name |
| Db.StripHeaders | db.py:222 | Headers are stripped and rows are kept. When two headers clash after stripping, the later column wins |
| Db.SeedRow | db.py:228-232 | A seeded row has exactly the six seed columns, with missing optional columns filled with `""` |
| Db.SeedPlan | db.py:212-232 | The seed runs exactly when learners are empty, the CSV exists and Name, Surname and Barcode are among its stripped headers. It keeps every CSV row |
| Db.Database.SeedFromCsv | db.py:212-233 | With no plan, nothing changes; otherwise the learners are replaced by the planned rows |
| Db.SeededLearners | db.py:221-233 | Each seeded learner carries the CSV row's normalised barcode, name and surname, and `""` for a missing optional column |

## Left out

- The Streamlit UI (app.py:121-204): page layout, widgets, and the add, edit and delete actions written inline with widget calls. These are interface code.
- Reading and writing files: `read_csv`, `to_csv`, `read_sql` and `Path.exists`. Files are in-memory values, and `SheetFile.content` is `None` for a missing file.
- `file_guard` (app.py:19-26): a generator context manager around the CSV read and write. When the guarded read or write raises, it catches the exception, sleeps 0.2 s and yields a second time, and the context-manager protocol then raises RuntimeError. So nothing is retried and a failed read or write still fails, under another exception type. I/O failures and the sleep are not modelled; the model assumes every read and write succeeds.
- SQLite connections, SQL text and `init_db` (db.py:16-70). The tables are sequences held by `Db.Database`.
- The clock (app.py:14, attendance_scanner.py:17). The day and month are parameters.
- The floating-point "Attendance %" (app.py:105). Only the integer counts are modelled.
- The WhatsApp auto-send table (db.py:61-67, 198-208) and the no-op `add_class_date` (db.py:116-118). These have no logic.
- The scanner's CLI loop, its printing and the message texts (attendance_scanner.py:133-143). Outcomes are datatypes; the app's reports keep the row, the name shown and whether the row was already marked.
- `read_csv` type inference in the seed (numbers read back as text), and `NaN` handling other than `fillna("")`. Every cell is a string.
- Unicode: `str.isdigit` is modelled for ASCII digits only, and `%b` case folding for ASCII letters only.
- Barcodes.Norm: idempotent only when the normal form does not start with whitespace. Whitespace inside a code can reach the front, so the general claim is false (see `Barcodes.NormNotIdempotent`).
- InOut.CurrentlyIn: lists each learner in order of the learner's first entry that day, not in `ts_iso` order. The set of learners listed is exact.
- InOut.Latest: among entries with equal `ts_iso`, the last appended is taken as latest. SQLite and pandas leave that order unspecified.
- App.ComputeTracking: built on the leap-aware date columns. On a sheet with a `29-Feb` column the source raises at app.py:58, where this returns a summary; `App.ComputeTrackingAsWritten` is the source's behaviour.
- Db.WideSheet: requires that no date label equals a learner column name. Pandas' merge would then add `_x`/`_y` suffixes, which are not modelled.
- Db.StripHeaders: two headers that clash after stripping are resolved in favour of the later column. Pandas would keep both under one name.
- Db.Rekey: a row whose stripped headers clash keeps only the cell of the later column under that name. Pandas would keep both cells under duplicate labels.

## Findings

| source | as written | input that shows it | evidently intended | confidence | as-written member | corrected member |
|---|---|---|---|---|---|---|
| app.py:58 | `get_date_columns` sorts with `strptime(x, "%d-%b")`, which assumes the year 1900 and so rejects 29 February | A sheet scanned on 29 February has a `29-Feb` column; `get_date_columns` raises and the tracking view fails | Leap-day columns sort between 28-Feb and 1-Mar | not executed | Dates.LeapDayRejectedAsWritten, App.ComputeTrackingAsWritten, App.LeapDayColumnBreaksTracking | App.DateColumnsSorted, App.DateColumnsAgreeWithSource, App.ComputeTracking |
| db.py:157-160 | `INSERT INTO inout_log VALUES (?,?,?,?,?,?)` is given seven values | Any call of `append_inout_log` fails: six placeholders, seven bindings | One entry of seven fields is appended | not executed | InOut.AppendAsWritten | InOut.Append, InOut.ToggleKeepsAlternating |
| attendance_scanner.py:93-98 | The echo after saving prints "marked PRESENT" for every match whose cell is now `1` | Two rows with barcode `7`, the first already `1` today: both are echoed as newly marked, and the first was also reported as already marked | Echo only the rows this scan marked | not executed | Scanner.EchoAsWritten, Scanner.EchoExample | Scanner.NewlyAreChangedRows |
