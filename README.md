# Walmart sales pipeline and production scripts, modelled in Dafny

This project models the data-handling core of the `ds-bootcamp-notes`
repository. Its two parts are built on one shared model of a pandas frame.

**The Walmart sales capstone:**

- **Merging** (`01_data_loading_and_merging.py`). The train, stores and
  features tables are loaded. The `IsHoliday` flags of train and features are
  compared through an inner join on (Store, Date). Then two many-to-one left
  merges build the merged table, and the script reports missing-value counts
  and key uniqueness.
- **Cleaning** (`02_data_cleaning.py`). Missing markdowns become 0 and rows
  with negative `Weekly_Sales` are dropped. The `Date` strings are parsed with
  `%Y-%m-%d`, and `Year`, `Month` and the ISO `Week` are derived from them.
  As pandas reads that format with its ISO 8601 parser, the month and the day
  may have one digit or two.
- **Training preparation** (`05_train_model.py`, lines 1-35). `IsHoliday`
  becomes an integer. The rows are split at 2012-02-01 into a training part and
  a test part, and each part is cut into numeric features `X` and the sales
  target `y`.
- **Prediction endpoint** (`app.py`). A JSON record becomes a one-row frame.
  The frame is aligned to the forest's `feature_names_in_`: missing features
  are set to 0, unknown fields are dropped, and the columns are put in training
  order. The answer is the forest's prediction or an error message.

**The production scripts:**

- **Basic metrics** (`01_basic_production_metrics.py`). A `Deviation` column is
  added. The script selects the days below the target of 110 and gives each bar
  its colour.
- **Production trends** (`03_time_series_production_trends.py`). It computes:
  - the Day-shift total;
  - the three records with the most defects;
  - the cost of all defects;
  - the daily totals after `Date` is converted.

  It then adds a `DayName` column.
- **Production report** (`04_automated_production_report.py`).
  `analyze_production` builds a week's frame and compares the average with the
  target, answering ALERT or SUCCESS.

## How the model is built

**Tables and values.**

- A frame is a `Tables.Table`: a list of typed columns (`Numeric`, `Boolean`,
  `Object`, `DateTime`) and a list of rows.
- A cell is an `Option<Value>`, where `None` is NaN or NaT.
- `WellFormed` states three things:
  - the column names are distinct;
  - every row has one cell per column;
  - every cell fits its column's dtype.
- pandas operations used by the scripts are functions on tables, proved
  against their meaning. These are `Series`, `Where`, `Select`, `Drop`,
  `select_dtypes`, column assignment, `fillna`, `isnull().sum()`,
  `is_unique`, `sum`, `mean` and `DataFrame(dict)`.
- Every exception a step can raise is an `Err` of `Outcomes.Result`. A script
  is the chain of its steps, and the first failing step ends it. The errors
  are `KeyError`, `MergeError`, `TypeError`, `ValueError`, `AttributeError`,
  a date `ParseError` and an integer `CastError`.
- A flag is a number in arithmetic and in sorting, as in pandas: `True` counts
  as 1 and `False` as 0 (`Tables.Amount`).

**Steps that change a frame in place.** Where a script updates a frame in
place, the model goes through `Frames.DataFrame`. This is a class whose fields
are the column list and the rows. Its methods `Assign`, `FillNa` and
`KeepRows` modify the object. The scripts' methods are:

- `Cleaning.Clean`, `Training.Prepare`, `ProductionMetrics.AddDeviation`;
- `ProductionTrends.ConvertDates`, `ProductionTrends.AddDayNames`;
- `Serving.AddMissingColumns`.

Each drives such a frame. Each is proved equal to a function of the frame's
old value, and the lemmas state what that function means.

**Dates.** `Calendar` holds:

- the proleptic Gregorian calendar;
- the day count that orders timestamps;
- weekdays and day names;
- the ISO week computed as pandas computes it, proved equal to the
  Thursday-rule definition;
- the `YYYY-MM-DD` parser with a one- or two-digit month and day, and its
  round trip with every spelling of a date.

**The endpoint.** `Serving.Server` holds the loaded forest or nothing.
`Predict` answers exactly as `Serving.Respond` describes.

## Model

| member | source | states |
|---|---|---|
| Frames.DataFrame.constructor | 04_Capstone_Walmart_Sales/app.py:42 | a frame built from a well-formed table is valid and holds exactly that table |
| Frames.DataFrame.Assign | 01_Pandas_Data_Analysis/01_basic_production_metrics.py:24 | `df[name] = cells` in place: the column now holds exactly those cells with that dtype, the row count is unchanged and every other column is unchanged |
| Frames.DataFrame.FillNa | 04_Capstone_Walmart_Sales/02_data_cleaning.py:11 | `fillna` in place: the frame becomes the filled table of its old value |
| Frames.DataFrame.KeepRows | 04_Capstone_Walmart_Sales/02_data_cleaning.py:19 | `df = df[mask]`: the same columns and exactly the rows whose mask entry is true, in their old order |
| Tables.Series | 04_Capstone_Walmart_Sales/01_data_loading_and_merging.py:15 | `df[name]` is the column's cell in every row, in row order; it is `KeyError(name)` exactly when the column is absent |
| Tables.Where | 04_Capstone_Walmart_Sales/02_data_cleaning.py:19 | boolean indexing keeps the columns and the rows at the true positions of the mask, in order |
| Tables.KeptIndicesIff | 04_Capstone_Walmart_Sales/02_data_cleaning.py:19 | a row survives boolean indexing if and only if its mask entry is true |
| Tables.ComplementaryMasks | 04_Capstone_Walmart_Sales/05_train_model.py:20-21 | two masks that disagree at every row select parts whose sizes add up to the row count |
| Tables.SeriesOfWhere | 04_Capstone_Walmart_Sales/02_data_cleaning.py:19 | after boolean indexing, every column holds the cells of the surviving rows |
| Tables.Select | 04_Capstone_Walmart_Sales/app.py:56 | `df[cols]` fails with a KeyError naming a missing column exactly when a listed column is missing; otherwise it holds the listed columns in the listed order, cell for cell |
| Tables.SelectAll | 04_Capstone_Walmart_Sales/app.py:56 | selecting a frame's own columns in their own order gives the frame back |
| Tables.Drop | 04_Capstone_Walmart_Sales/01_data_loading_and_merging.py:20 | `drop(columns=...)` fails exactly when a listed column is missing and errors are not ignored; otherwise it keeps the other columns in their order |
| Tables.DropKeeps | 04_Capstone_Walmart_Sales/05_train_model.py:27 | after the drop no dropped column remains, every other column survives and the row count is unchanged |
| Tables.SelectNumeric | 04_Capstone_Walmart_Sales/05_train_model.py:27 | `select_dtypes(include=['number'])` keeps every numeric column and nothing else, in the frame's column order, each with the same cells (`SubFrame`) |
| Tables.WithColumn | 04_Capstone_Walmart_Sales/app.py:53 | assigning a column adds it or replaces it with exactly the given cells; every other column and the row count are unchanged, and no other column appears |
| Tables.FillNaWellFormed | 04_Capstone_Walmart_Sales/02_data_cleaning.py:11 | filling keeps a frame well-formed; a column whose fill value does not fit becomes `object` |
| Tables.FillNaFills | 04_Capstone_Walmart_Sales/02_data_cleaning.py:11 | in a filled column every missing cell becomes the value, the other cells stay, and none is missing afterwards |
| Tables.FillNaKeepsOthers | 04_Capstone_Walmart_Sales/02_data_cleaning.py:11 | columns that are not listed are unchanged by the fill |
| Tables.FillNa | 04_Capstone_Walmart_Sales/02_data_cleaning.py:11 | `fillna` keeps the column names in order and the row count |
| Tables.CountMissing | 04_Capstone_Walmart_Sales/02_data_cleaning.py:14 | `isnull().sum()` of a column is at most its length, 0 exactly when no cell is missing and the length exactly when every cell is |
| Tables.MissingCounts | 04_Capstone_Walmart_Sales/01_data_loading_and_merging.py:33 | one count per column in column order, each at most the row count and 0 exactly when the column has no missing cell |
| Tables.IsUnique | 04_Capstone_Walmart_Sales/01_data_loading_and_merging.py:38-40 | `is_unique` holds exactly when no value occurs twice |
| Tables.SumAppend | 01_Pandas_Data_Analysis/03_time_series_production_trends.py:19 | `sum()` skips NaN and adds up over a concatenation |
| Tables.Sum | 01_Pandas_Data_Analysis/03_time_series_production_trends.py:19 | `sum()` of a column with no negative number is non-negative; a flag counts as 1 or 0 and NaN is skipped |
| Tables.Mean | 01_Pandas_Data_Analysis/04_automated_production_report.py:26 | `mean()` is NaN exactly when every cell is missing, and with no missing cell it is the sum over the count |
| Tables.FromColumns | 01_Pandas_Data_Analysis/04_automated_production_report.py:21-23 | `DataFrame(dict)` fails with the same-length ValueError exactly when the lists differ in length; otherwise row i holds the i-th element of each list |
| Calendar.ParseIsoDate | 04_Capstone_Walmart_Sales/02_data_cleaning.py:26 | a string that parses gives a valid calendar date inside the nanosecond Timestamp range |
| Calendar.ParseSpelled | 04_Capstone_Walmart_Sales/02_data_cleaning.py:26 | every date in the Timestamp range has a four-digit year, and every spelling of it with a one- or two-digit month and day, the zero-padded `%Y-%m-%d` text among them, parses back to it |
| Calendar.FormatParsed | 04_Capstone_Walmart_Sales/02_data_cleaning.py:26 | every accepted string is a spelling of the date it parses to (four-digit year, month and day in one or two digits), so no two dates share a text |
| Calendar.OneDigitFields | 04_Capstone_Walmart_Sales/02_data_cleaning.py:26 | `2010-2-5` is read as 5 February 2010 |
| Calendar.BeforeIsChronological | 04_Capstone_Walmart_Sales/05_train_model.py:20-21 | comparing (year, month, day) orders dates as their day counts do, and equal day counts mean equal dates |
| Calendar.NextDayNumber | 01_Pandas_Data_Analysis/03_time_series_production_trends.py:53 | the next calendar day is a valid date one day count later, with the next weekday |
| Calendar.IsoWeekIsThursdayWeek | 04_Capstone_Walmart_Sales/02_data_cleaning.py:31 | the ISO week computed as pandas does is the week of the Thursday-rule definition and lies in 1..53 |
| Calendar.IsoWeekCrossesYears | 04_Capstone_Walmart_Sales/02_data_cleaning.py:31 | 2012-12-31 is week 1 of 2013 and 2010-01-01 is week 53 of 2009 |
| Calendar.IsoWeek | 04_Capstone_Walmart_Sales/02_data_cleaning.py:31 | the week number pandas computes lies in 1..53 |
| Merging.CheckKeys | 04_Capstone_Walmart_Sales/01_data_loading_and_merging.py:14 | a merge finds its keys exactly when every key column is in both tables; otherwise it raises a KeyError |
| Merging.KeyClash | 04_Capstone_Walmart_Sales/01_data_loading_and_merging.py:14 | a merge key whose two dtypes pandas refuses to join (datetime against another dtype, numbers against strings) is reported, for exactly such keys, as the incompatible-dtypes ValueError |
| Merging.JoinedColumns | 04_Capstone_Walmart_Sales/01_data_loading_and_merging.py:14 | the merged columns are the left columns and then the right non-key columns; a name on both sides gets `_x` and `_y`, and right columns that may receive NaN are widened |
| Merging.RestPositions | 04_Capstone_Walmart_Sales/01_data_loading_and_merging.py:14 | the right table contributes its non-key columns, in their order |
| Merging.InnerJoin | 04_Capstone_Walmart_Sales/01_data_loading_and_merging.py:14 | the inner merge goes ahead exactly when its keys exist on both sides with compatible dtypes and the suffixed names are distinct (`Mergeable`); its columns are the joined columns and its rows are the matched pairs; with the keys present it raises a ValueError exactly when a key's dtypes clash |
| Merging.InnerJoinSound | 04_Capstone_Walmart_Sales/01_data_loading_and_merging.py:14 | every row of the inner merge is a train row followed by the non-key cells of a features row with the same key |
| Merging.InnerJoinComplete | 04_Capstone_Walmart_Sales/01_data_loading_and_merging.py:14 | every pair of rows with equal keys appears in the inner merge |
| Merging.HolidayColumnsOfJoin | 04_Capstone_Walmart_Sales/01_data_loading_and_merging.py:14-15 | `IsHoliday_x` and `IsHoliday_y` of a joined row are the train flag and the features flag of the pair it came from |
| Merging.AgreeingJoinRows | 04_Capstone_Walmart_Sales/01_data_loading_and_merging.py:15 | if `(x == y).all()` holds, on every (Store, Date) shared by the two tables the flags are present and equal under Python's `==`, where True equals 1 and False equals 0 |
| Merging.DisagreeingJoinRow | 04_Capstone_Walmart_Sales/01_data_loading_and_merging.py:15 | if it fails, some shared (Store, Date) has a missing flag or two flags that Python's `==` tells apart |
| Merging.DisagreeingPair | 04_Capstone_Walmart_Sales/01_data_loading_and_merging.py:14-15 | a disagreeing joined row comes from a train row and a features row with the same key whose flags are missing or differ |
| Merging.HolidayVerdict | 04_Capstone_Walmart_Sales/01_data_loading_and_merging.py:14-16 | the printed verdict is true if and only if, on every shared (Store, Date), both flags are present and equal under Python's `==` (True equals 1) |
| Merging.LeftJoinManyToOne | 04_Capstone_Walmart_Sales/01_data_loading_and_merging.py:24 | a `how='left', validate='m:1'` merge goes ahead exactly when the keys are mergeable and the right keys are unique; with the keys present it raises a ValueError exactly when a key's dtypes clash; the result is well-formed, with the joined columns (widened when a left key finds no match) and one row per left row |
| Merging.LeftJoinRefusesRepeatedKeys | 04_Capstone_Walmart_Sales/01_data_loading_and_merging.py:24 | with the keys present and of compatible dtypes, the merge raises the many-to-one MergeError if and only if a right key repeats |
| Merging.LeftJoinKeepsLeftRows | 04_Capstone_Walmart_Sales/01_data_loading_and_merging.py:24 | no fan-out: the result has the left row count, and each row begins with its left row unchanged and in order |
| Merging.LeftJoinMatchedRows | 04_Capstone_Walmart_Sales/01_data_loading_and_merging.py:24 | a left row whose key matches a right row is followed by that right row's non-key cells |
| Merging.LeftJoinUnmatchedRows | 04_Capstone_Walmart_Sales/01_data_loading_and_merging.py:24 | a left row whose key matches no right row is followed by missing cells |
| Merging.LeftJoinWellFormed | 04_Capstone_Walmart_Sales/01_data_loading_and_merging.py:27 | the left-merged table is well-formed, with NaN-receiving columns widened (bool to object) |
| Merging.Merged | 04_Capstone_Walmart_Sales/01_data_loading_and_merging.py:20-27 | the merge goes ahead on fitting inputs (`MergeInputsFit`); then it is well-formed with train's row count, each row beginning with its train row unchanged |
| Merging.MergedExactly | 04_Capstone_Walmart_Sales/01_data_loading_and_merging.py:20-27 | the merge goes ahead exactly when the drop of the features' flag and both left merges do, and its result is then the second merge's |
| Merging.LeftJoinGoesAhead | 04_Capstone_Walmart_Sales/01_data_loading_and_merging.py:24 | an m:1 left merge on present, compatible keys unique on the right, with no shared non-key column, goes ahead; the left table is a sub-frame of the result and every other column comes from the right |
| Merging.MergeStepsGoAhead | 04_Capstone_Walmart_Sales/01_data_loading_and_merging.py:20-27 | on fitting inputs (keys present and compatible, Store unique in stores, (Store, Date) unique in features, no shared non-key column) the drop and both merges go ahead |
| Merging.TwoMergesKeepTrainRows | 04_Capstone_Walmart_Sales/01_data_loading_and_merging.py:24-27 | after both merges each train row is still the head of its merged row, in order |
| Merging.LoadAndMerge | 04_Capstone_Walmart_Sales/01_data_loading_and_merging.py:14-40 | the script finishes exactly when the holiday validation and the merge both go ahead; the report carries the validation's verdict, the merged table, its missing counts column by column, and whether Store is unique in each of the three loaded tables; the merged table has train's row count and each row begins with its train row |
| Merging.LoadAndMergeRejectsRepeatedStores | 04_Capstone_Walmart_Sales/01_data_loading_and_merging.py:24 | with a Store repeated in stores, the script stops with the many-to-one MergeError |
| Merging.MergedRejectsClashingStores | 04_Capstone_Walmart_Sales/01_data_loading_and_merging.py:24 | a `Store` key of strings in stores against train's numeric one stops the first merge with pandas' ValueError |
| Cleaning.AtLeastZero | 04_Capstone_Walmart_Sales/02_data_cleaning.py:19 | `>= 0` on one cell fails exactly for strings and timestamps, and is true exactly for a non-negative number or a flag; NaN gives false |
| Cleaning.NonNegativeMask | 04_Capstone_Walmart_Sales/02_data_cleaning.py:19 | the mask exists exactly when every cell can be compared, and it is true exactly at the non-negative cells |
| Cleaning.SalesFilter | 04_Capstone_Walmart_Sales/02_data_cleaning.py:19 | the `>= 0` mask on `Weekly_Sales` has one entry per row |
| Cleaning.ToDateTime | 04_Capstone_Walmart_Sales/02_data_cleaning.py:26 | a converted cell is a valid date or NaT, and a failure is a ParseError naming the row |
| Cleaning.ToDateTimeOfString | 04_Capstone_Walmart_Sales/02_data_cleaning.py:26 | a string converts if and only if it spells a valid date in the Timestamp range with a four-digit year and a one- or two-digit month and day, and then it converts to that date |
| Cleaning.ParseDates | 04_Capstone_Walmart_Sales/02_data_cleaning.py:26 | a column converts exactly when each cell does; on failure the error names the first row that does not |
| Cleaning.Years | 04_Capstone_Walmart_Sales/02_data_cleaning.py:29 | `dt.year` gives each row its date's year, or NaN for NaT |
| Cleaning.Months | 04_Capstone_Walmart_Sales/02_data_cleaning.py:30 | `dt.month` gives each row its date's month, or NaN for NaT |
| Cleaning.Weeks | 04_Capstone_Walmart_Sales/02_data_cleaning.py:31 | `dt.isocalendar().week` gives each row its date's ISO week, or NaN for NaT |
| Cleaning.WithDates | 04_Capstone_Walmart_Sales/02_data_cleaning.py:26-31 | the four column assignments keep the frame well-formed with its row count |
| Cleaning.Filled | 04_Capstone_Walmart_Sales/02_data_cleaning.py:11 | the five markdown columns filled with 0 form a well-formed frame |
| Cleaning.FilledSeries | 04_Capstone_Walmart_Sales/02_data_cleaning.py:11 | after the fill a markdown column has no missing cell, and any other column is unchanged |
| Cleaning.SurvivorsAreNonNegative | 04_Capstone_Walmart_Sales/02_data_cleaning.py:19 | a row survives the filter if and only if its sales value is non-negative |
| Cleaning.KeptSeries | 04_Capstone_Walmart_Sales/02_data_cleaning.py:19 | after the filter each non-markdown column holds the cells of the surviving rows, in order |
| Cleaning.Kept | 04_Capstone_Walmart_Sales/02_data_cleaning.py:19 | the filtered frame is well-formed and is the filled frame restricted to the rows whose mask entry is true |
| Cleaning.Cleaned | 04_Capstone_Walmart_Sales/02_data_cleaning.py:11-31 | cleaning goes ahead exactly when the markdowns are present, the sales filter compares and the kept rows' dates parse, and otherwise raises the first of those errors; the result is the kept rows with parsed dates, and dropped plus remaining rows equal the initial count |
| Cleaning.DropNegativeSales | 04_Capstone_Walmart_Sales/02_data_cleaning.py:18-20 | the filter in place keeps exactly the masked rows and returns `initial_row_count - df.shape[0]`; on error the frame is unchanged |
| Cleaning.ConvertDates | 04_Capstone_Walmart_Sales/02_data_cleaning.py:26-31 | the Date conversion and the three derived columns in place; on error the frame is unchanged |
| Cleaning.Clean | 04_Capstone_Walmart_Sales/02_data_cleaning.py:11-31 | the script on one frame succeeds exactly when cleaning does, and leaves the cleaned table and the dropped count; on failure it raises cleaning's error and leaves the frame untouched (missing markdown), filled (sales that cannot compare) or filled and filtered (a date that does not parse) |
| Cleaning.CleanedNeedsMarkdowns | 04_Capstone_Walmart_Sales/02_data_cleaning.py:11 | a missing markdown column stops cleaning with a KeyError naming a missing markdown column |
| Cleaning.CleanedMarkdownsComplete | 04_Capstone_Walmart_Sales/02_data_cleaning.py:13-14 | after cleaning every markdown column exists and has no missing value |
| Cleaning.KeptSalesNonNegative | 04_Capstone_Walmart_Sales/02_data_cleaning.py:19 | every sales value left by the filter is non-negative |
| Cleaning.CleanedSalesNonNegative | 04_Capstone_Walmart_Sales/02_data_cleaning.py:19 | after cleaning no sales value is negative or missing |
| Cleaning.CleanedKeepsNonNegativeRows | 04_Capstone_Walmart_Sales/02_data_cleaning.py:18-20 | the surviving rows are exactly the non-negative-sales rows, in increasing order; their number is the cleaned row count, and the dropped count is the rest |
| Cleaning.CleanedKeepsOtherColumns | 04_Capstone_Walmart_Sales/02_data_cleaning.py:19 | every column other than the markdowns and the date columns holds the surviving rows' cells, in order |
| Cleaning.KeptDates | 04_Capstone_Walmart_Sales/02_data_cleaning.py:26 | each parsed date is the conversion of its surviving row's Date text |
| Cleaning.CleanedDates | 04_Capstone_Walmart_Sales/02_data_cleaning.py:26 | each cleaned Date is the conversion of its surviving row's original Date |
| Cleaning.SeriesOfWithDates | 04_Capstone_Walmart_Sales/02_data_cleaning.py:26-31 | the derived columns hold the dates, years, months and weeks, and every other column is unchanged |
| Cleaning.CleanedDateParts | 04_Capstone_Walmart_Sales/02_data_cleaning.py:29-31 | in each cleaned row, Year and Month are the date's year and month and Week is its ISO week in 1..53; a NaT date gives NaN in all three |
| Cleaning.CleanedRejectsMalformedDate | 04_Capstone_Walmart_Sales/02_data_cleaning.py:26 | a surviving row whose Date text is not such a spelling of a date makes cleaning fail with a ParseError |
| Training.Truncate | 04_Capstone_Walmart_Sales/05_train_model.py:13 | the integer conversion cuts a number towards zero |
| Training.ToInt | 04_Capstone_Walmart_Sales/05_train_model.py:13 | `astype(int)` of one cell succeeds exactly for a flag or a number, gives a number, and otherwise fails naming the row |
| Training.AsInt | 04_Capstone_Walmart_Sales/05_train_model.py:13 | the column converts exactly when each cell does, into a numeric column holding each cell's conversion |
| Training.HolidayAsInt | 04_Capstone_Walmart_Sales/05_train_model.py:12-13 | without an `IsHoliday` column the frame is unchanged; with one the frame stays well-formed with its row count |
| Training.HolidayToInt | 04_Capstone_Walmart_Sales/05_train_model.py:12-13 | the conversion in place: the frame becomes the converted table, or is unchanged on error |
| Training.HolidayFlagsBecomeBits | 04_Capstone_Walmart_Sales/05_train_model.py:12-13 | a boolean `IsHoliday` becomes a numeric column with True as 1 and False as 0; every other column is unchanged |
| Training.EarlierThanSplit | 04_Capstone_Walmart_Sales/05_train_model.py:20 | comparing a cell with `'2012-02-01'` fails exactly for a number or a flag |
| Training.NotEarlierThanSplit | 04_Capstone_Walmart_Sales/05_train_model.py:21 | the `>=` comparison fails on exactly the same cells |
| Training.CellGoesToOneSide | 04_Capstone_Walmart_Sales/05_train_model.py:20-21 | a present date or string is on exactly one side of the split date; NaT is on neither |
| Training.DatesArray | 04_Capstone_Walmart_Sales/05_train_model.py:20-21 | comparing a numeric or bool `Date` column with a string fails at once with pandas' "Invalid comparison" TypeError; any other present column is compared cell by cell |
| Training.TrainMask | 04_Capstone_Walmart_Sales/05_train_model.py:20 | the `<` mask has one entry per row; it fails with KeyError exactly when there is no `Date` column, and otherwise with TypeError exactly when the column is numeric or bool or some cell is a number or a flag |
| Training.TestMask | 04_Capstone_Walmart_Sales/05_train_model.py:21 | the `>=` mask has one entry per row |
| Training.ParsedDatesCompare | 04_Capstone_Walmart_Sales/05_train_model.py:8-21 | with `Date` parsed, neither mask fails |
| Training.SplitSelectsByDate | 04_Capstone_Walmart_Sales/05_train_model.py:18-21 | a row is in the training part if and only if its date is before 2012-02-01, and in the test part if and only if its date is on or after it |
| Training.SplitSides | 04_Capstone_Walmart_Sales/05_train_model.py:20-21 | row by row, a dated row is selected by exactly one of the two masks and an undated row by neither |
| Training.SplitIsPartition | 04_Capstone_Walmart_Sales/05_train_model.py:20-21 | no row is on both sides, and the two parts and the NaT rows add up to all rows |
| Training.TrainBeforeTest | 04_Capstone_Walmart_Sales/05_train_model.py:20-21 | every training date is strictly earlier than every test date |
| Training.Features | 04_Capstone_Walmart_Sales/05_train_model.py:25-27 | the features keep every numeric column outside `Weekly_Sales`, `Date` and `Type`, and nothing else; they come in the part's column order, and each carries the part's cells for that column (`SubFrame`) |
| Training.FeaturesColumnsOnly | 04_Capstone_Walmart_Sales/05_train_model.py:27-30 | the feature columns depend only on the part's columns, not on its rows |
| Training.TrainPart | 04_Capstone_Walmart_Sales/05_train_model.py:20 | the training part is the frame filtered by the `<` mask |
| Training.TestPart | 04_Capstone_Walmart_Sales/05_train_model.py:21 | the test part is the frame filtered by the `>=` mask |
| Training.TrainTestSplit | 04_Capstone_Walmart_Sales/05_train_model.py:20-31 | the split succeeds exactly when the `Date` comparison succeeds and there is a `Weekly_Sales` column; otherwise it fails with the comparison's error, or with KeyError for `Weekly_Sales`. On success `X_train` and `X_test` are the features of the two parts, and `y_train` and `y_test` are their `Weekly_Sales` columns |
| Training.SplitShapes | 04_Capstone_Walmart_Sales/05_train_model.py:27-31 | `X_train` and `X_test` have the same columns; each X has as many rows as its y, and together they have at most the frame's rows |
| Training.Prepare | 04_Capstone_Walmart_Sales/05_train_model.py:12-31 | the conversion in place and then the split: the result is the preparation's, and the frame holds the converted table, or is unchanged when the conversion fails |
| Training.HolidayBecomesFeature | 04_Capstone_Walmart_Sales/05_train_model.py:13-30 | a boolean `IsHoliday` ends up as a numeric feature of both `X_train` and `X_test` |
| Serving.FrameOf | 04_Capstone_Walmart_Sales/app.py:42 | `pd.DataFrame([data])` has one row, the record's fields as columns in order, and each field's value in its column |
| Serving.AddMissing | 04_Capstone_Walmart_Sales/app.py:51-53 | after the loop every expected column exists, existing columns are unchanged, added columns are all 0, and no other column appears |
| Serving.AddMissingStep | 04_Capstone_Walmart_Sales/app.py:52-53 | one loop step adds a zero column for a missing name and changes nothing for a present one |
| Serving.AddMissingColumns | 04_Capstone_Walmart_Sales/app.py:51-53 | the loop in place leaves the frame the model's AddMissing defines |
| Serving.AddMissingNoop | 04_Capstone_Walmart_Sales/app.py:51-53 | when every expected column is already present the loop changes nothing |
| Serving.Align | 04_Capstone_Walmart_Sales/app.py:51-56 | the aligned frame's columns are exactly the expected names in training order, with the input's row count |
| Serving.AlignedCells | 04_Capstone_Walmart_Sales/app.py:51-56 | each aligned cell is the input's value for that feature, or 0 when the input lacks it |
| Serving.AlignWellFormed | 04_Capstone_Walmart_Sales/app.py:56 | with distinct feature names the aligned frame is well-formed |
| Serving.AlignIdempotent | 04_Capstone_Walmart_Sales/app.py:51-56 | aligning an aligned frame again changes nothing |
| Serving.AlignedRecord | 04_Capstone_Walmart_Sales/app.py:42-56 | for a record: features in training order, provided values kept, absent features 0, and unexpected fields gone |
| Serving.NotLoadedAnswer | 04_Capstone_Walmart_Sales/app.py:36-37 | without a usable forest every request gets status `error` and "Model could not be loaded." |
| Serving.AnswerShape | 04_Capstone_Walmart_Sales/app.py:61-71 | status is `success` exactly for a success; see the note below |
| Serving.NonObjectPredictsZeros | 04_Capstone_Walmart_Sales/app.py:42-66 | a JSON body that is not an object (null, a number, a string, a list) makes a frame without any feature, so a loaded forest answers with its prediction for every feature set to 0 |
| Serving.Server.constructor | 04_Capstone_Walmart_Sales/app.py:25-30 | the server holds the loaded forest, or nothing when loading raised |
| Serving.Server.Predict | 04_Capstone_Walmart_Sales/app.py:34-71 | the endpoint answers each request exactly as the model's Respond describes |
| ProductionMetrics.Week | 01_Pandas_Data_Analysis/01_basic_production_metrics.py:13-17 | the hand-written week is a well-formed frame of seven days with Day and Production |
| ProductionMetrics.Deviate | 01_Pandas_Data_Analysis/01_basic_production_metrics.py:24 | `Production - 110` fails exactly on strings and timestamps; otherwise it is the difference, negative exactly for a day below the target |
| ProductionMetrics.Deviations | 01_Pandas_Data_Analysis/01_basic_production_metrics.py:24 | the subtraction gives one deviation per row |
| ProductionMetrics.AddDeviation | 01_Pandas_Data_Analysis/01_basic_production_metrics.py:24 | the Deviation column is added in place, the other columns and the row count are unchanged, and on error the frame is unchanged |
| ProductionMetrics.DeviationIsShortfall | 01_Pandas_Data_Analysis/01_basic_production_metrics.py:24 | each row's Deviation is its production minus 110, and every other column is unchanged |
| ProductionMetrics.NegativeIffBelow | 01_Pandas_Data_Analysis/01_basic_production_metrics.py:24-28 | a row's Deviation is negative if and only if its production is below the target |
| ProductionMetrics.LessThanTarget | 01_Pandas_Data_Analysis/01_basic_production_metrics.py:28 | `x < 110` on one cell fails exactly for strings and timestamps, and is true exactly for a value below the target; NaN is false |
| ProductionMetrics.BelowMask | 01_Pandas_Data_Analysis/01_basic_production_metrics.py:28 | the `< 110` mask has one entry per row |
| ProductionMetrics.DaysBelowTarget | 01_Pandas_Data_Analysis/01_basic_production_metrics.py:28 | the filtered frame exists exactly when the mask does, keeps the columns and has at most the frame's rows |
| ProductionMetrics.FailTogether | 01_Pandas_Data_Analysis/01_basic_production_metrics.py:24-34 | the deviation, the filter and the colours fail on exactly the same frames |
| ProductionMetrics.FilterKeepsBelow | 01_Pandas_Data_Analysis/01_basic_production_metrics.py:28 | `days_below_target` holds exactly the rows whose production is below 110, in order |
| ProductionMetrics.RedIffBelow | 01_Pandas_Data_Analysis/01_basic_production_metrics.py:34 | a bar is red exactly when its production is below the target, and skyblue otherwise |
| ProductionMetrics.Colours | 01_Pandas_Data_Analysis/01_basic_production_metrics.py:34 | there is one colour per row |
| ProductionMetrics.WeekFigures | 01_Pandas_Data_Analysis/01_basic_production_metrics.py:13-34 | for the hand-written week: the deviations, the below-target mask, the colours, and the kept days 2, 3 and 5 |
| ProductionMetrics.WeekOutputs | 01_Pandas_Data_Analysis/01_basic_production_metrics.py:28-34 | the days below target are Wednesday, Thursday and Saturday |
| ProductionMetrics.BasicProductionMetrics | 01_Pandas_Data_Analysis/01_basic_production_metrics.py:13-34 | see the note below |
| ProductionTrends.DayShiftMask | 01_Pandas_Data_Analysis/03_time_series_production_trends.py:19 | `df['Shift'] == "Day"` is true exactly at the rows whose shift is the string "Day" |
| ProductionTrends.DayShiftProduction | 01_Pandas_Data_Analysis/03_time_series_production_trends.py:19 | a missing `Shift` or `UnitsProduced` is a KeyError naming it, a non-numeric Day-shift cell is the TypeError of `sum`, and a numeric units column always adds up |
| ProductionTrends.SumOfKept | 01_Pandas_Data_Analysis/03_time_series_production_trends.py:19 | the sum of the filtered column is the sum over the rows the mask selects |
| ProductionTrends.DayShiftTotal | 01_Pandas_Data_Analysis/03_time_series_production_trends.py:19 | the Day-shift production is the units of exactly the rows whose shift is "Day", added up, and 0 when there is none |
| ProductionTrends.Ranking | 01_Pandas_Data_Analysis/03_time_series_production_trends.py:26 | the descending sort is a permutation of the rows, and no row is placed after a row it outranks (NaN last) |
| ProductionTrends.InsertKeepsOrder | 01_Pandas_Data_Analysis/03_time_series_production_trends.py:26 | inserting a row into a descending order keeps it descending |
| ProductionTrends.RankingCovers | 01_Pandas_Data_Analysis/03_time_series_production_trends.py:26 | every row appears in the ranking |
| ProductionTrends.RankingDistinct | 01_Pandas_Data_Analysis/03_time_series_production_trends.py:26 | no row appears twice in the descending order |
| ProductionTrends.TopPositionsRanked | 01_Pandas_Data_Analysis/03_time_series_production_trends.py:26 | `head(3)` takes min(3, n) different rows in non-increasing defect order, and no row left out has more defects than a chosen one |
| ProductionTrends.TopDefectsRanked | 01_Pandas_Data_Analysis/03_time_series_production_trends.py:26 | the top-3 frame has all columns and holds min(3, n) different whole rows, at the ranked positions |
| ProductionTrends.TopDefects | 01_Pandas_Data_Analysis/03_time_series_production_trends.py:26 | the top-3 frame exists exactly when `DefectCount` is present and orderable; it keeps the columns and has min(3, n) rows, and otherwise the error is that KeyError or TypeError |
| ProductionTrends.Costs | 01_Pandas_Data_Analysis/03_time_series_production_trends.py:34-35 | each record's cost is its defects times 50 |
| ProductionTrends.SumOfCosts | 01_Pandas_Data_Analysis/03_time_series_production_trends.py:34-35 | the sum of the per-record costs is the defect sum times 50 |
| ProductionTrends.LossIsSumOfCosts | 01_Pandas_Data_Analysis/03_time_series_production_trends.py:34-35 | the total loss is the sum of the per-record costs |
| ProductionTrends.TotalLoss | 01_Pandas_Data_Analysis/03_time_series_production_trends.py:35 | the loss exists exactly when `DefectCount` is present and numeric, and it is never negative when no defect count is |
| ProductionTrends.WithParsedDates | 01_Pandas_Data_Analysis/03_time_series_production_trends.py:42 | the conversion succeeds exactly when every Date cell converts; then Date has dtype datetime, holds each row's conversion, and every other column is unchanged |
| ProductionTrends.ConvertDates | 01_Pandas_Data_Analysis/03_time_series_production_trends.py:42 | the Date conversion in place, or no change on error |
| ProductionTrends.AddToDates | 01_Pandas_Data_Analysis/03_time_series_production_trends.py:45 | adding one row to the grouping files it under its date and keeps the other dates |
| ProductionTrends.AddToChronological | 01_Pandas_Data_Analysis/03_time_series_production_trends.py:45 | adding one row keeps the group keys in ascending date order |
| ProductionTrends.AddToTotals | 01_Pandas_Data_Analysis/03_time_series_production_trends.py:45 | adding one row raises its date's total and the grand total by its units, and no other total |
| ProductionTrends.Daily | 01_Pandas_Data_Analysis/03_time_series_production_trends.py:45 | the keys are ascending and are exactly the dates present, each total is the units of its date's rows, and the grand total is the units of all dated rows |
| ProductionTrends.EntryIsTotalFor | 01_Pandas_Data_Analysis/03_time_series_production_trends.py:45 | in an ascending grouping each entry's total is the total filed under its date |
| ProductionTrends.DailyTotals | 01_Pandas_Data_Analysis/03_time_series_production_trends.py:45 | `groupby('Date').sum()` has sorted keys, exactly the dates present and each date's sum; with no NaT its grand total is the column sum |
| ProductionTrends.DailyProduction | 01_Pandas_Data_Analysis/03_time_series_production_trends.py:45 | the grouping exists exactly when `UnitsProduced` is present and numeric, and otherwise raises that KeyError or TypeError |
| ProductionTrends.NameOfDay | 01_Pandas_Data_Analysis/03_time_series_production_trends.py:53 | `day_name()` of one cell is a name exactly for a valid timestamp, and NaN for NaT |
| ProductionTrends.WithDayNames | 01_Pandas_Data_Analysis/03_time_series_production_trends.py:53 | `.dt.day_name()` works exactly on a present datetime `Date` column, and otherwise raises that KeyError or the AttributeError of `.dt`; the result is well-formed, keeps the rows and has DayName |
| ProductionTrends.AddDayNames | 01_Pandas_Data_Analysis/03_time_series_production_trends.py:53 | the DayName column is added in place, or there is no change on error |
| ProductionTrends.DayNamesOfDates | 01_Pandas_Data_Analysis/03_time_series_production_trends.py:53 | each row's DayName is its date's weekday name, NaN for NaT, and every other column is unchanged |
| ProductionTrends.DayNamesFollowCalendar | 01_Pandas_Data_Analysis/03_time_series_production_trends.py:53 | 2012-02-01 is a Wednesday, and each next day has the next weekday name |
| ProductionTrends.FinalFrame | 01_Pandas_Data_Analysis/03_time_series_production_trends.py:42-53 | the frame the script leaves is well-formed |
| ProductionTrends.TimeSeriesTrends | 01_Pandas_Data_Analysis/03_time_series_production_trends.py:19-53 | the script returns the analyses or the first error, and leaves the frame with Date converted and DayName added as far as it got |
| ProductionReport.WeekFrame | 01_Pandas_Data_Analysis/04_automated_production_report.py:21-23 | see the note below |
| ProductionReport.AnalyzeProduction | 01_Pandas_Data_Analysis/04_automated_production_report.py:21-33 | a call fails exactly when the list does not have seven figures; otherwise the verdict is decided on the Production mean |
| ProductionReport.Decide | 01_Pandas_Data_Analysis/04_automated_production_report.py:30-33 | the verdict carries the average and is ALERT exactly when the average is a number below the target |
| ProductionReport.NeedsSevenDays | 01_Pandas_Data_Analysis/04_automated_production_report.py:21-23 | any length other than seven raises the same-length ValueError |
| ProductionReport.WeekAverage | 01_Pandas_Data_Analysis/04_automated_production_report.py:26 | the average of seven figures is their total over seven |
| ProductionReport.AlertIffBelowTarget | 01_Pandas_Data_Analysis/04_automated_production_report.py:26-33 | the report alerts exactly when the total is below seven times the target and succeeds otherwise, an average equal to the target included |
| ProductionReport.FactoryVerdicts | 01_Pandas_Data_Analysis/04_automated_production_report.py:49-57 | factory A (total 845, target 115) succeeds and factory B (total 635, target 100) alerts |

Notes on rows whose statement is too long for the table:

- **Serving.AnswerShape:**
  - status is `success` exactly for a success;
  - a success comes only from a loaded forest and a readable record, carries
    the forest's prediction on the aligned row, and has currency `USD`;
  - a failing prediction is answered with the exception's message;
  - a body that cannot be read is answered with the message of the
    exception reading it raised.
- **ProductionMetrics.BasicProductionMetrics:**
  - the frame ends with Day, Production and Deviation, holding the week's
    values and deviations;
  - the days below target are Wednesday, Thursday and Saturday;
  - the colours are red for those three days and skyblue for the others.
- **ProductionReport.WeekFrame:** the frame exists exactly for seven figures.
  Row i is then the i-th day name and the i-th figure, and Production holds
  the list.

## Left out

**Not modelled:**

- File reading and writing, `print`, plotting (`matplotlib`, `seaborn`) and
  Flask routing are left out. The model starts from the loaded tables and ends
  with the values the scripts print or save.
- The random forest is left out: `joblib.load`, `fit`, and the evaluation and
  feature-importance part of `05_train_model.py` after line 35. The serving
  model receives the loaded forest as a parameter. Its `predict` is a function
  the model does not look inside.
- Floating-point arithmetic is not modelled. Numbers are exact reals, so
  sums, means and the float64 widening of int columns carry no rounding.
- `round(prediction, 2)` on line 66 of `app.py` is not modelled;
  `Serving.Respond` passes the forest's prediction through unrounded, for the
  same reason.
- The dropped-rows percentage on line 22 of `02_data_cleaning.py` is not
  modelled. On a frame without rows that line raises ZeroDivisionError and
  the script stops there, before the dates are converted, while
  `Cleaning.Clean` returns the cleaned empty frame.
- The day-of-week means on line 54 of `03_time_series_production_trends.py`
  are not modelled. They only feed a print. The DayName column they group by
  is modelled.
- `df.describe()` and the printed tables are not modelled.
- Concurrency of the endpoint is not modelled. Each request is a separate
  call of `Serving.Server.Predict`, and the server state is read-only after
  construction.
- The Flask request body is not parsed. A JSON object is a list of
  (field, value) pairs. Any other JSON value (null, a number, a string, a
  list) is `NotAnObject`. `pd.DataFrame([data])` then gives a row whose columns
  are not features, so every feature is 0 (`Serving.NonObjectPredictsZeros`).
  A body that is not JSON is `Unreadable`, carrying the message of the
  exception reading it raised.

**Weaker or narrower contracts:**

- `Serving.Describe`: `str(e)` is exact for KeyError, MergeError, TypeError,
  ValueError and AttributeError. The texts for the date-parse and integer-cast errors are
  representative and do not include the offending value.
- `Calendar.ParseIsoDate`: leading or trailing spaces, and spaces around the
  fields, are refused, although pandas' ISO parser skips them. So are a time
  after the date and a one- or two-digit year.
- `Cleaning.ToDateTime`: it reads `%Y-%m-%d` of `02_data_cleaning.py` with
  `Calendar.ParseIsoDate`, so a space-padded spelling such as `" 2010-02-05"`
  is a ParseError in the model.
- `ProductionTrends.WithParsedDates`: the format-free `pd.to_datetime` of
  `03_time_series_production_trends.py:42` is modelled with the same ISO
  parse, so the other spellings pandas would infer are not accepted. A numeric
  `Date` cell, which pandas reads as nanoseconds since 1970-01-01, is a
  ParseError in the model, and so is a cell holding a flag.
- `Training.ToInt`: `astype(int)` of a string, a timestamp or NaN is modelled
  as a CastError. pandas would parse a numeric string and converts timestamps
  to nanoseconds.
- `Training.DatesArray`: a numeric `Date` column is named `float64` in the
  message; pandas names `int64` for an integer column.
- `Training.EarlierThanSplit`: when `Date` was not parsed, the split compares
  strings as Python does, character by character. A parsed column compares
  as dates. NaT rows fall on neither side.
- `Merging.InnerJoin`: a name made twice by the `_x`/`_y` suffixes is a
  MergeError, as `Merging.LeftJoinManyToOne` also states. pandas detects only
  some such collisions and would otherwise keep duplicate labels.
- `Merging.LeftJoinManyToOne`: the key-dtype check covers datetime against
  another dtype and numbers against a column of strings. pandas' finer
  inference, such as an all-missing object key or strings mixed with numbers,
  is not modelled. The ValueError names the key but not the two dtypes.
- `Merging.HolidayVerdict`: `==` follows Python for numbers, flags, strings
  and NaN. A timestamp is never equal to a string, whatever its text.
- `Merging.Widened`: a column that receives NaN keeps its dtype except a bool
  column, which becomes `object`. Integer columns becoming float64 is not
  visible, because numbers are reals.
- `ProductionTrends.Ranking`: `sort_values` uses an unstable quicksort, so
  among rows with equal defect counts pandas may pick any order. The model
  fixes one admissible order: stable, descending, NaN last.
  `ProductionTrends.TopPositionsRanked` states only what every admissible
  order shares.
- `ProductionTrends.TotalLoss`: summing a `DefectCount` column that holds
  strings or timestamps is a TypeError in the model. pandas would concatenate
  an all-string column. Flags are added as 1 and 0, as pandas does.
- `ProductionTrends.DayShiftProduction`: the same gap for the day-shift
  `UnitsProduced` sum. A string or timestamp cell is a TypeError in the model,
  while pandas concatenates an all-string column.
- `ProductionTrends.DailyProduction`: the same gap for the per-date
  `UnitsProduced` sums. A group of strings is a TypeError in the model, not a
  concatenated string.
  It is also defined only after the Date column has been converted, which is
  the only way the script reaches it.
- `ProductionTrends.TopDefects`: sorting a `DefectCount` column that holds
  strings or timestamps is a TypeError in the model. pandas would sort an
  all-string column lexicographically. Flags sort as 1 and 0, as pandas does.
- `ProductionReport.AnalyzeProduction`: the target is an `int` and the list
  holds integers, as the docstring declares.

**Behaviour of the code worth knowing:**

- The holiday-flag validation yields only `(x == y).all()`. It gives no count
  or sample of mismatches and does not stop the merge.
- The cleaning, training and production scripts update their frames in
  place.
- A missing model is not fatal at startup. The server keeps running and
  answers each request with the load error.
