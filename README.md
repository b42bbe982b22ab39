# CardapioRU: table reconciliation and meal classification

CardapioRU reads the menu of a university restaurant from a PDF. A table
extractor (tabula) turns the PDF into a list of tables. Two scripts then
turn those tables into data:

- `app.py` is the meal classifier. It cleans each table, makes its column
  labels unique and keeps the rows whose first cell is today's date, written
  as "<day>/<month abbreviation>" ("14/out"). A counter that runs across all
  tables sends the first such row to breakfast ("Café da Manhã"), the second
  to lunch ("Almoço") and the third to dinner ("Jantar"). Later rows are
  dropped. Any exception empties the whole answer.
- `main.py` is the section segmenter. When the first cell of a table's page
  is a section title ("CARDÁPIO … ALMOÇO|JANTAR|DESJEJUM"), the table opens a
  new logical table, with its first row as the header. Any other table
  continues the open one. After each table, the open table:
  - keeps only rows dated "dd/mm/yyyy";
  - has its missing values written "N/A";
  - gains a 'Refeição' column and a 'Título' column.

  At the end all tables are concatenated and duplicate rows are dropped.

The model is split into these modules:

| module | file | what it holds |
|---|---|---|
| `TextUtil` | `TextUtil.dfy` | Python's `split('/')`, `'/'.join`, `str()` of a natural number and reading digits back |
| `Sequences` | `Sequences.dfy` | occurrence counts, `unique()` / `drop_duplicates` (first occurrences in order) and flattening |
| `Cells` | `Cells.dfy` | the cell type (text, number, missing), `str.strip()`, both `clean_cell` functions and `fillna('N/A')` |
| `Columns` | `Columns.dfy` | `make_unique_columns`, imperatively as in the source (one vectorised renaming pass per repeated label) |
| `Dates` | `Dates.dfy` | `months_map`, app.py's `is_valid_date` / `is_today`, main.py's `is_valid_date`, all down to the strptime field patterns and the range of a pandas Timestamp |
| `Titles` | `Titles.dfy` | `is_new_table_title`, as a decision procedure proved equal to the regular expression read literally |
| `MealClassifier` | `MealClassifier.dfy` | app.py's `process_pdf_to_data` |
| `Segmenter` | `Segmenter.dfy` | main.py's `process_pdf_to_data` |

Each script's loop is a method with loop invariants. The method is proved
equal to a recursive specification function: `MealsOf(QualifyingRecords(..))`
in app.py and `Segment(..)` in main.py. The lemmas state what the scripts
promise about those functions.

An exception caught at the end of the loop is modelled as `None` (or as the
empty map, which is what app.py returns). The pandas behaviour the scripts
rely on is spelled out in the doc comments of `TableOutcome`, `SelectDated`,
`InsertLabels` and `ConcatFrames`:
- `apply` over no rows gives an empty result that is not boolean, so
  selecting with it reads it as a list of column labels and keeps no
  column;
- `df[label]` with a repeated label gives a frame rather than a column;
- `insert` refuses a label that is already present;
- `pd.concat` takes the union of labels in order of first appearance, and
  cannot align a frame whose own labels repeat.

Some behaviour of the two scripts is easy to overlook:
- app.py looks the month abbreviation up in `months_map` exactly as written
  (app.py:17-30, 42). There is no case folding, so "10/Jan" is not a date
  (`Dates.CapitalisedMonthRejected`).
- `make_unique_columns` (app.py:57-63, main.py:17-22) does not always
  produce unique labels (`Columns.UniquenessNotGuaranteed`). main.py
  overwrites its result on both branches (main.py:66, 73), so it has no
  effect there (`Segmenter.LabelsIrrelevant`).
- Continuation tables (main.py:69-85):
  - `df.columns = current_table.columns` raises when the widths differ, so
    such a table ends the run.
  - A continuation of a table that has rows always raises, because
    'Refeição' is inserted a second time (`Segmenter.ContinuationFails`).
- When no page starts with a section title, main.py returns an empty frame
  (main.py:94-101, `Segmenter.NoTitleGivesEmpty`).
- main.py's `is_valid_date` (main.py:10-15) accepts a missing value, the
  empty string and the spellings of "not a time" and "not a number"
  ("NaT", "nan", ...), because `pd.to_datetime` turns them into NaT without
  raising (`Dates.BlankAndNaTAccepted`, `Segmenter.MissingDateKept`,
  `Segmenter.BlankDateKept`). It also accepts "now" and "today", which
  pandas reads as the current moment whatever the format
  (`Dates.NowAndTodayAccepted`).
- In app.py a table whose first label is still repeated after
  `make_unique_columns` raises even without rows, so the whole answer is
  empty (app.py:95-98, `MealClassifier.ClashingHeaderWithoutRowsFails`).
- After an exception, app.py returns an empty mapping with no keys
  (app.py:117-119, `MealClassifier.FailingTableDiscardsAll`), not three
  empty meal lists.

## Model

| member | source | states |
|---|---|---|
| Cells.Strip | app.py:35 | `str.strip()`: the result has no Python whitespace at either end and holds only characters of the input |
| Cells.StripRemovesOnlyOuterSpace | main.py:7 | stripping removes exactly a whitespace-only prefix and a whitespace-only suffix, so the result is a contiguous slice of the input |
| Cells.StripBounds | main.py:7 | the stripped text is the slice between a whitespace-only prefix and a whitespace-only suffix, and the bounds of that slice are given |
| Cells.StripLeftSkips | main.py:7 | a leading whitespace character is removed and stripping continues |
| Cells.StripRightSkips | main.py:7 | a trailing whitespace character is removed and stripping continues |
| Cells.StripExample | main.py:7 | "  x\n" strips to "x" |
| Cells.StripTrimmed | main.py:7 | stripping text that has no outer whitespace leaves it unchanged |
| Cells.RemoveCarriageReturns | app.py:35 | `replace('\r', '')` leaves no carriage return, changes nothing when there is none, and keeps only characters of the input |
| Cells.RemoveCarriageReturnsAppend | app.py:35 | removing carriage returns distributes over concatenation, so the other characters keep their order |
| Cells.CleanCellApp | app.py:32-36 | app.py's `clean_cell`: text stays text and becomes the stripped text with its carriage returns removed, so it has no '\r' and no outer whitespace; numbers and missing values pass through unchanged |
| Cells.CleanCellMain | main.py:5-8 | main.py's `clean_cell`: text stays text and becomes the stripped text, which has no outer whitespace; other cells pass through unchanged |
| Cells.CleanCellAppIdempotent | app.py:32-36 | cleaning a cell twice gives the same as cleaning it once |
| Cells.CleanCellMainIdempotent | main.py:5-8 | cleaning a cell twice gives the same as cleaning it once |
| Cells.RemoveCarriageReturnsExample | app.py:35 | "  x\r\n" loses only its carriage return |
| Cells.CleanCellAppExample | app.py:35 | "  x\r\n" cleans to "x" |
| Cells.InteriorCarriageReturnKept | main.py:7 | main.py keeps a carriage return inside the text |
| Cells.InteriorCarriageReturnDropped | app.py:35 | app.py removes a carriage return inside the text |
| Cells.FillMissing | main.py:81 | `fillna('N/A')`: a missing value becomes "N/A", every present value is kept, so no missing value is left |
| TextUtil.SplitJoinRoundTrip | app.py:41 | joining the pieces of `split('/')` with '/' gives back the token |
| TextUtil.JoinSplitRoundTrip | app.py:41 | splitting '/'-joined pieces that contain no '/' gives back the pieces |
| TextUtil.NatToStringRoundTrip | app.py:61 | `str(i)` of a natural number is a digit string that reads back as i |
| Columns.SuffixedInjective | app.py:61 | `dup + '_' + str(i)` determines both the label and the number |
| Columns.SuffixedParts | app.py:61 | equal generated names come from the same label and the same number |
| Columns.DuplicatedComplete | app.py:60 | every label that repeats an earlier one is selected by `cols.duplicated()` |
| Columns.DuplicatedSound | app.py:60 | everything `cols.duplicated()` selects repeats an earlier label |
| Columns.RepeatedLabels | app.py:60 | `.unique()` of the duplicated labels lists each of them once, and only labels of the header |
| Columns.RepeatedLabelsMembers | app.py:60 | a label is listed exactly when some later occurrence of it repeats an earlier one |
| Columns.RenameRepeats | app.py:61 | one renaming pass keeps the number of labels and the first label |
| Columns.RenameOccurrences | app.py:61 | the vectorised assignment, as a loop over the positions of `dup`, computes the renaming pass |
| Columns.MakeUniqueColumns | app.py:57-63 | `make_unique_columns`, run as the source runs it, yields `UniqueColumns`: as many labels as before, the first label kept, every label that occurs once kept; when no generated name is already a label, the o-th occurrence is renamed `label_o` and the labels are distinct |
| Columns.RenameAllKeeps | app.py:60-61 | a position whose label is not repeated is never touched by any pass |
| Columns.UniqueColumns | main.py:17-22 | the labels `make_unique_columns` gives: as many as before, the first one kept, and every label that occurs once kept |
| Columns.SingleLabelKept | main.py:17-22 | a label that occurs once survives `make_unique_columns` |
| Columns.RenameAllWithoutClash | app.py:60-61 | while no generated name clashes, after the passes each repeated label's o-th occurrence reads `label_o` and the others are untouched |
| Columns.UniqueColumnsWithoutClash | app.py:57-63 | without a clash each position receives its documented name: the first occurrence unchanged, the o-th repeat `label_o` |
| Columns.OccurrenceNamesDiffer | app.py:61 | without a clash two positions never receive the same name |
| Columns.UniqueColumnsDistinct | app.py:57-63 | without a clash the resulting labels are distinct |
| Columns.RepeatsNumbered | app.py:61 | ["A","B","A","A"] becomes ["A","B","A_1","A_2"] |
| Columns.ExampleNames | app.py:61 | in ["A","B","A","A"] the positions deserve "A", "B", "A_1" and "A_2", and no generated name clashes |
| Columns.DuplicatedExample | app.py:60 | the duplicated labels of ["A","A","A_1"] are ["A"] |
| Columns.UniquenessNotGuaranteed | app.py:57-63 | ["A","A","A_1"] becomes ["A","A_1","A_1"]: a generated name can collide with an existing label |
| Columns.FirstLabelClash | app.py:57-63 | ["A_1","A","A"] becomes ["A_1","A","A_1"]: renaming can repeat the first label |
| Dates.DaysInMonth | app.py:43 | the length of a month in the Gregorian calendar lies between 28 and 31 |
| Dates.DaysInMonthAtMostLeapYear | app.py:53 | no month is longer than in the fixed year 2024 |
| Dates.MonthNamesHaveNoSlash | app.py:17-30 | no month abbreviation contains '/' |
| Dates.DayField | app.py:43 | the `%d` field reads one of "1".."9", " 1".." 9" or "01".."31" as a day from 1 to 31 |
| Dates.MonthField | main.py:12 | the `%m` field reads one of "1".."9" or "01".."12" as a month from 1 to 12 |
| Dates.ReadDayMonth | app.py:38-46 | a token is read only if it splits into exactly two parts and its month part is a key of `months_map`; the result is a real date in the given year whose month is the mapped number and whose day is the `%d` reading of the day part |
| Dates.IsValidDate | app.py:38-46 | app.py's `is_valid_date` holds exactly when the token splits into two parts, the second a key of `months_map` and the first a `%d` field no larger than the length of that month in 2024 |
| Dates.IsToday | app.py:48-55 | app.py's `is_today` holds exactly when today is a real date a Timestamp can hold, the token splits into two parts, the abbreviation maps to today's month and the day field reads today's day |
| Dates.DayFieldOfDecimal | app.py:43 | `str(day)` is a `%d` field that reads back as that day |
| Dates.DayMonthRoundTrip | app.py:38-46 | writing "<day>/<abbreviation>" for any day of that month and reading it back gives the same date |
| Dates.TodayIsValid | app.py:48-55 | a token that `is_today` accepts is also accepted by `is_valid_date` |
| Dates.TodayExactly | app.py:48-55 | for a real date today, `is_today` holds exactly when the abbreviation maps to today's month and the day field reads today's day |
| Dates.SplitDayMonth | app.py:41 | "<day>/<abbreviation>" with '/'-free parts splits into exactly those two parts |
| Dates.LeapDayIsValid | app.py:43 | "29/fev" is a valid token, because 2024 is a leap year |
| Dates.CapitalisedMonthRejected | app.py:42 | "10/Jan" is not a valid token: the month lookup is case-sensitive |
| Dates.DayOutOfMonthRejected | app.py:43 | "31/abr" is not a valid token |
| Dates.Pad2 | main.py:12 | a two-digit rendering of a number below 100 reads back as that number |
| Dates.Pad4 | main.py:12 | a four-digit rendering of a year below 10000 is a `%Y` field for that year |
| Dates.ReadNumericDate | main.py:10-15 | "dd/mm/yyyy" is read only if it has exactly three '/'-separated fields; the result is a real date that a pandas Timestamp can hold, whose day, month and year are the `%d`, `%m` and `%Y` readings of the fields |
| Dates.IsValidNumericDate | main.py:10-15 | main.py's `is_valid_date` accepts a missing value, the empty string, the NaT and NaN spellings, "now" and "today", rejects a number, and accepts any other text only when its three '/'-separated fields read as a real date |
| Dates.BlankAndNaTAccepted | main.py:10-15 | "" and "nan" are accepted although neither reads as a date |
| Dates.NowAndTodayAccepted | main.py:10-15 | "now" and "today" are accepted although neither reads as a date |
| Dates.NumericDateRoundTrip | main.py:10-15 | every real date in the Timestamp range, written zero-padded as "dd/mm/yyyy", reads back as itself |
| Dates.SplitNumeric | main.py:12 | "<day>/<month>/<year>" with '/'-free fields splits into exactly those three fields |
| Dates.OutOfRangeDateRejected | main.py:12-14 | "01/01/1600" is rejected, because a pandas Timestamp cannot hold that day |
| Titles.DropFinalNewline | main.py:27 | `$` allows at most one final newline after the match |
| Titles.TitleMatchesPattern | main.py:24-29 | every string `is_new_table_title` accepts matches `^CARDÁPIO.*(ALMOÇO\|JANTAR\|DESJEJUM)$`, with `.` excluding newlines |
| Titles.TitleMatchesAt | main.py:27-28 | a string that is the prefix, a newline-free run and a keyword, up to one final newline, matches the pattern |
| Titles.TitleFromMatch | main.py:27-28 | a match of the pattern, given its parts, is accepted by `is_new_table_title` |
| Titles.PatternMatchesTitle | main.py:24-29 | every string the pattern matches is accepted |
| Titles.TitleIffPattern | main.py:24-29 | `is_new_table_title` on a string holds exactly when the regular expression matches it |
| Titles.TitleWithNewline | main.py:27-28 | a title followed by one newline is still a title |
| Titles.TitleCounterexamples | main.py:26-29 | a newline inside the title breaks the match, and a cell that is not text is no title |
| MealClassifier.CleanRows | app.py:92 | the table keeps its shape; in every cell text stays text, becomes the stripped text without carriage returns and has no '\r' and no outer whitespace, and any other cell is unchanged |
| MealClassifier.Record | app.py:104-113 | `row.values[1:]` after `fillna('N/A')`: the row without its date cell, one cell narrower, where a missing value reads "N/A" and every present value is kept |
| MealClassifier.TodayRows | app.py:98-99 | every row kept by the two filters has a date cell that is valid and names today |
| MealClassifier.ServedTodayRows | app.py:98-99 | the rows dated today, in order: at most as many as the rows, each dated today and a row of the table |
| MealClassifier.FilterToday | app.py:98-99 | the two filters, row by row, compute the kept rows, or fail when a date cell is not text |
| MealClassifier.TodayRowsFailAfter | app.py:98 | once a non-text date cell has been met, the filters fail whatever rows follow |
| MealClassifier.TodayRowsFailIff | app.py:98 | the filters fail exactly when some date cell is not text |
| MealClassifier.TodayRowsExactly | app.py:98-99 | when the filters succeed, the kept rows are the rows dated today, in their order and each as often as it occurs (`ServedTodayRows`): every kept row is such a row, and every such row is kept |
| MealClassifier.ValidFilterRedundant | app.py:98-99 | the `is_valid_date` filter removes nothing that the `is_today` filter would keep |
| MealClassifier.TableOutcome | app.py:90-113 | a table raises exactly when, with its labels made unique, it has no label, or its first label repeats, or it has no row, or it has a date cell that is not text; otherwise it contributes the records of its rows dated today, in order |
| MealClassifier.FilterRaisesIff | app.py:92-99 | with a unique first label and rows, the table raises exactly when the two filters on its cleaned rows fail |
| MealClassifier.TodayRowsOf | app.py:90-99 | cleaning, `make_unique_columns` and the two filters fail exactly when the table's outcome is a failure; otherwise the table contributes the records of the kept rows |
| MealClassifier.Slot | app.py:106-113 | a meal receives a record exactly when the counter reaches its number |
| MealClassifier.SlotAppend | app.py:107-113 | serving one more record fills the meal numbered like the records already served and leaves the other meals as they were |
| MealClassifier.ServeRows | app.py:106-113 | the inner loop with the run-wide `meal_index` gives each meal the record with its number, counting over everything served so far |
| MealClassifier.ProcessPdfToData | app.py:83-119 | the loop returns the three meals of the qualifying records of all tables, or the empty mapping as soon as one table raises |
| MealClassifier.ConcatFailIff | app.py:90-119 | the run fails exactly when some table fails |
| MealClassifier.QualifyingRecords | app.py:90-113 | the run's records fail exactly when some table's outcome is a failure |
| MealClassifier.QualifyingSource | app.py:90-113 | the n-th record of a successful run is a record that one of the tables contributes |
| MealClassifier.ConcatSources | app.py:90-113 | every record of a successful run comes from one of the tables |
| MealClassifier.FailingTableDiscardsAll | app.py:117-119 | one table that raises empties the whole answer, whatever the other tables hold |
| MealClassifier.MealsServed | app.py:83-87 | a successful run returns exactly the three meal keys; meal n holds the n-th qualifying record when there is one and nothing otherwise, so at most three records are served |
| MealClassifier.LaterRecordsDropped | app.py:106-113 | qualifying rows after the third change nothing |
| MealClassifier.TableRecordsFromTodayRows | app.py:98-113 | every record a table contributes is the record of one of its cleaned rows dated today |
| MealClassifier.RecordsFromTodayRows | app.py:90-113 | every record served comes from a row dated today of one of the tables, is one cell narrower than that table, and holds no missing value |
| MealClassifier.RepeatedFirstLabelFails | app.py:95-98 | a table whose first label is still repeated after `make_unique_columns` raises, with rows or without |
| MealClassifier.ClashingHeaderWithoutRowsFails | app.py:95-98 | a table with the header ["A_1","A","A"] and no rows raises, since renaming repeats its first label |
| MealClassifier.TableFailsIff | app.py:92-99 | when no generated label clashes, a table raises exactly when it has no columns, has no rows, or has a date cell that is not text |
| Segmenter.CleanRows | main.py:53 | the table keeps its shape; in every cell text stays text and becomes the stripped text, with no outer whitespace, and any other cell is unchanged |
| Segmenter.DatedRows | main.py:78 | the selection keeps at most the rows of the table, and only rows whose date cell `is_valid_date` accepts |
| Segmenter.DatedRowsComplete | main.py:78 | every row whose date cell is accepted is kept |
| Segmenter.FillRow | main.py:81 | `fillna('N/A')` on a row keeps its width, writes "N/A" for each missing cell and keeps every other cell, so no missing value is left |
| Segmenter.LabelRows | main.py:81-85 | every row gains two cells in front, the meal name and the section title, followed by the row with its missing values filled |
| Segmenter.LabelRowsAnnotated | main.py:81-85 | rows with an accepted date, filled and labelled under a section title, are rows of an annotated table: meal name, title, a date that is "N/A" or valid, no missing value |
| Segmenter.SelectDated | main.py:78 | the selection raises exactly when the first label is repeated and there are rows; otherwise every kept row has an accepted date cell, and the table keeps its labels or, with no rows under a unique first label, loses them all |
| Segmenter.InsertLabels | main.py:84-85 | `insert` raises exactly when 'Refeição' or 'Título' is already a label; otherwise the two labels come first, and under a section title the table is annotated |
| Segmenter.Annotate | main.py:76-88 | the steps after each table fail when there is no first column, or when there are rows and 'Refeição' is already a label; under a real title they leave an annotated table |
| Segmenter.AnnotateKeepsDatedRows | main.py:76-88 | with a unique first label, rows, and neither inserted label present, the result has 'Refeição', 'Título' and the header as labels and holds exactly the rows whose date is accepted, each behind the meal name and the title with missing values filled |
| Segmenter.LabelDatedRows | main.py:78-85 | the labelled dated rows of a table are exactly its rows with an accepted date cell, each filled and behind the meal name and the title |
| Segmenter.MissingDateKept | main.py:78-85 | a row whose date cell is missing passes `is_valid_date` and comes out with "N/A" as its date |
| Segmenter.BlankDateKept | main.py:78-85 | a row whose date cell is the empty string passes `is_valid_date` and keeps "" as its date |
| Segmenter.Closed | main.py:90-92 | appending the open table keeps every held table annotated |
| Segmenter.Step | main.py:47-88 | one iteration keeps the loop invariant: every held table is annotated, and an open table has a section title |
| Segmenter.Run | main.py:43-88 | the loop keeps that invariant over any sequence of tables |
| Segmenter.AlignRow | main.py:96 | `pd.concat` moves a row under the union of labels: a label of the row's table receives the row's cell under that label (its first occurrence), and a label the table lacks receives a missing value |
| Segmenter.Align | main.py:96 | every row of a table is moved under the union of labels, cell by cell as `AlignRow` states |
| Segmenter.ProcessPdfToData | main.py:38-104 | the loop over the tables returns the segmented result, or nothing as soon as a step raises |
| Segmenter.Finish | main.py:90-101 | after the loop: with no table the empty frame; otherwise the concatenation fails exactly when `pd.concat` does, keeps its labels, and has no row twice |
| Segmenter.Segment | main.py:38-104 | the whole run fails exactly when a step fails or the final concatenation fails, and a result has no row twice |
| Segmenter.ProcessChunk | main.py:48-88 | one iteration succeeds exactly when the step succeeds, and then leaves the step's new state |
| Segmenter.RunFailsAfter | main.py:103-104 | once a step raises, the whole run returns nothing |
| Segmenter.ContinuationFails | main.py:69-88 | a continuation of an open table that has or gains rows raises, because 'Refeição' is inserted a second time |
| Segmenter.EmptyContinuationKept | main.py:69-88 | an empty continuation of an empty table leaves a table with only the two inserted labels |
| Segmenter.TitleClosesTable | main.py:60-88 | a title table appends the open table to `all_data` and takes the page text as the current title; the new open table is the first cleaned row as header over the other cleaned rows, annotated, and when the header's first label is unique and a row follows it, its labels are 'Refeição', 'Título' and that header and its rows are exactly the later rows with an accepted date, behind the meal name and the title, filled |
| Segmenter.LeadingChunksSkipped | main.py:69-71 | tables before the first title change nothing |
| Segmenter.NoTitleGivesEmpty | main.py:94-101 | when no page has a title, the result is the empty frame |
| Segmenter.LabelsIrrelevant | main.py:56 | the labels a table arrives with, and so `make_unique_columns`, have no effect on the run |
| Segmenter.ConcatSameShape | main.py:96 | concatenating tables with equal headers keeps the header, and every row carries the meal name and a title |
| Segmenter.AllLabelsStart | main.py:96 | the union of the labels of annotated tables begins with 'Refeição' and 'Título' |
| Segmenter.AlignAnnotatedRow | main.py:96 | an annotated row aligned under labels that begin with 'Refeição' and 'Título' keeps its meal name and title in front |
| Segmenter.ConcatAlignedShape | main.py:96 | concatenating tables with different headers puts 'Refeição' and 'Título' first, and every row carries the meal name and a title |
| Segmenter.ConcatFrames | main.py:96 | `pd.concat` fails exactly when the headers differ and some table's own labels repeat; with equal headers it keeps the header, otherwise it takes the union of labels in order of first appearance |
| Segmenter.ConcatFramesRows | main.py:96 | a row is in the concatenation exactly when it is a row of one of the tables, as is under equal headers or moved under the union of labels |
| Segmenter.FinishKeepsEachRowOnce | main.py:96-97 | `drop_duplicates` keeps every row of the concatenation and leaves no row twice |
| Segmenter.FinishKeepsFirstOrder | main.py:96-97 | `drop_duplicates` keeps first appearances in order: of two result rows, the earlier appears in the concatenation before any copy of the later |
| Segmenter.SegmentShape | main.py:90-101 | a successful result is the empty frame when no table was closed, and otherwise has 'Refeição' and 'Título' as its first labels; its rows are distinct, each holds the meal name and a section title, and a row is in the result exactly when it is a row of one of the closed tables, moved under the result's labels |

## Left out

- The Flask routes (`/api/meals`, `/health`), the PDF download, reading tables with tabula, logging and `print` are left out. The models start from the extracted tables.
- `datetime.today()` is a parameter `today` of app.py's model, read once per run; the source reads the clock again for every row.
- main.py's `extract_text_from_page` is not modelled. Each table comes with the first cell of its page as an input. The source reads the page numbered like the table (table index + 1). An exception in that reader ends the run like any other exception.
- Column dtypes are not modelled: cleaning is applied to every cell, whereas pandas maps `clean_cell` only over object columns. This changes nothing, since `clean_cell` returns non-text cells unchanged.
- Floating-point NaN is modelled as a missing cell.
- Numbers are kept as uninterpreted values; no cell arithmetic occurs in the core.
- `\d` in the strptime patterns is restricted to ASCII digits; Python also accepts other Unicode decimal digits there.
- The index of a frame, `reset_index`, and the order of keys in the JSON answer are not modelled.
- MealClassifier.TableOutcome: a table whose first label is repeated after `make_unique_columns` is modelled as raising, with or without rows. The pandas mechanism is not modelled. With rows, `is_valid_date` receives a whole column. Without rows, `where` cannot reindex the empty condition on the repeated labels.
- Segmenter.ConcatFrames: aligning a frame whose labels repeat is modelled as raising. How pandas reindexes such frames is not modelled in more detail.
- Cells.RemoveCarriageReturns: its own contract does not fix the order of the characters it keeps. `Cells.RemoveCarriageReturnsAppend` does, since removal distributes over concatenation.
- Segmenter.DatedRows: its own contract states only that kept rows are rows of the table with an accepted date. `Segmenter.DatedRowsComplete` states that every such row is kept. The order of the kept rows is stated by no contract, only by the definition.
- Columns.UniqueColumns: its own contract covers the first label and the labels that occur once. The numbering of repeats (`Columns.UniqueColumnsWithoutClash`) and distinct results (`Columns.UniqueColumnsDistinct`) hold only when no generated name is already a label, and are stated there.
- Dates.IsValidNumericDate: the strings `pd.to_datetime` accepts without the format are taken to be as in pandas 2. These are the empty string, "NaT", "nat", "NAT", "nan", "NaN" and "NAN" (read as NaT), and "now" and "today" (read as the current moment). Other pandas versions may differ.
- Segmenter.ConcatFramesRows: states membership in both directions, not that the tables' rows follow one another in document order. That order is given only by the definition of `ConcatFrames`. The order `drop_duplicates` keeps is stated by `Segmenter.FinishKeepsFirstOrder`.
