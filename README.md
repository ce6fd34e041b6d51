# Aldi grocery price pipeline: combiner and latest-price anomaly detector

This project is a Dafny model of the data-handling core of a small grocery price tracker. A scraper saves one folder of CSV files per day, named `yyyymmdd`. The model covers three pieces:

- **The combiner (`concat_data`).** It picks the day folders between a start and an end date and reads every CSV in them. It skips the pipeline's own output files. It then:
  - normalises each file's column names;
  - keeps only files that have a `name` and a `price` column;
  - fills in missing `brand` and `weight` columns;
  - tags each row with its folder's date;
  - cleans the price text (removes `$` and `,`, strips whitespace) and reads it as a number, a bad value becoming NaN.

  The result is one table of rows that have both a name and a price. Missing brands become the empty string.
- **The anomaly detector (`get_anomalies`).** It reads such a combined table, drops rows without a price or date, and gives rows without a brand the brand "(no brand)". For every (brand, name) product with at least three observations:
  - it takes the newest observation;
  - it collects the distinct prices of the 30 days up to and including the newest date, in order of first appearance;
  - it reports the product when an isolation-forest model calls the newest price an outlier (only with three or more distinct levels), or when the newest price lies at least 30% away from the median of those levels.

  Each record carries the product, its newest weight, date and price, the median and percentage difference rounded to cents, a direction, and the `|`-joined names of the rules that fired.
- **`cleanAvg`.** The scraper's weight clean-up: `"avg. 3 lb/piece"` becomes `"3 lb"`.

## Modules

| module | file | contents |
|---|---|---|
| `Wrappers` | `wrappers.dfy` | `Option`, `Result` |
| `Text` | `text.dfy` | Python's `str.strip`, `str.lower`, `in`, string order, digit strings |
| `Sorting` | `sorting.dfy` | pandas' stable sort on one key, `unique()` |
| `Prices` | `prices.dfy` | price text cleaning and decimal parsing |
| `Calendar` | `calendar.dfy` | `yyyymmdd` folder names as day numbers |
| `Ingest` | `ingest.dfy` | `concat_data` |
| `Anomalies` | `anomalies.dfy` | `get_anomalies` |
| `Aldi` | `aldi.dfy` | `cleanAvg` |

**Inputs.** The model works on values and never performs I/O:
- a folder is its name plus its files;
- a file is its path plus the table `read_csv` would return, or nothing when reading raised;
- the combined CSV is a sequence of rows as the reader hands them over: brand, name, weight and price are optional strings (the price still raw text), and the date, which `parse_dates` has already parsed, is an optional day number;
- the start and end dates are parameters, as is the outlier model (`isOutlier`).

`LoadFrames` and `GetAnomalies` keep the source's loops as imperative loops. Each is proved equal to a recursive specification function (`FramesOf`, `Anomalies`), and the lemmas are stated about those functions.

## Model

| member | source | states |
|---|---|---|
| `Text.Strip` | concat_data.py:70 | the result is a slice of the input with only whitespace cut off on each side, and is empty or has non-whitespace ends |
| `Text.StripIdempotent` | concat_data.py:70 | stripping twice is stripping once |
| `Text.StripLeadingSpace` | concat_data.py:70 | whitespace in front of a string never survives stripping |
| `Text.StripPadded` | concat_data.py:70 | one blank on each side of a trimmed string strips back to that string |
| `Text.Lower` | concat_data.py:45 | lower-casing keeps the length and maps each character on its own |
| `Text.LowerHasNoUpper` | concat_data.py:45 | a lower-cased string has no upper-case letter left |
| `Text.ContainsIff` | concat_data.py:35 | `sub in s` holds exactly when `sub` occurs at some position of `s` |
| `Text.LexLeTotal` | concat_data.py:27 | Python's string order compares any two strings |
| `Text.LexLeTransitive` | concat_data.py:27 | Python's string order is transitive |
| `Text.LexLeAntisymmetric` | concat_data.py:27 | two strings each at most the other are equal |
| `Text.DigitsValueAppend` | concat_data.py:20-21 | digit strings concatenate as place values |
| `Text.LexLeDigits` | concat_data.py:27 | for digit strings of one length, string order is numeric order |
| `Sorting.SortBy` | concat_data.py:173 | the stable sort returns a permutation of its input |
| `Sorting.SortBySorted` | concat_data.py:173 | the sorted sequence is ordered by key |
| `Sorting.SortByStable` | concat_data.py:173 | elements with equal keys keep their input order (`kind="mergesort"`) |
| `Sorting.SortBySortedIsIdentity` | concat_data.py:159-173 | sorting an already sorted sequence changes nothing |
| `Sorting.LastOfSortBy` | concat_data.py:173-174 | the last sorted element has the largest key and is the last in input order among those with that key |
| `Sorting.Distinct` | concat_data.py:189 | `unique()` lists every value of the input exactly once and nothing else |
| `Sorting.DistinctHead` | concat_data.py:189 | the first value always opens the list of distinct values |
| `Sorting.DistinctSnoc` | concat_data.py:189 | one more value extends the list exactly when it is new |
| `Sorting.DistinctPrefix` | concat_data.py:189 | values come in order of first appearance: the distinct values of any prefix open the list, in the same order |
| `Sorting.DistinctConstant` | concat_data.py:189 | a run of one repeated value has that value as its only distinct value |
| `Sorting.SortedRealsUnique` | concat_data.py:200 | two sorted sequences with the same elements are equal |
| `Prices.RemoveCurrencyMarks` | concat_data.py:69 | no `$` or `,` remains and nothing is added |
| `Prices.RemoveCurrencyMarksAppend` | concat_data.py:69 | mark removal works piece by piece |
| `Prices.RemoveCurrencyMarksNone` | concat_data.py:69 | text without marks is unchanged |
| `Prices.CleanPrice` | concat_data.py:66-71 | cleaned price text has no marks and no surrounding whitespace |
| `Prices.UnsignedShape` | concat_data.py:72 | digits, an optional point and digits, with at least one digit, is the same as text of digits and at most one point containing a digit |
| `Prices.ParseUnsigned` | concat_data.py:72 | a text parses exactly when it is digits and at most one point with at least one digit; the value is non-negative |
| `Prices.ParseDecimal` | concat_data.py:72 | a text parses exactly when it is an optional sign followed by unsigned text; without a `-` the value is non-negative |
| `Prices.ParseSigned` | concat_data.py:72 | `-t` reads as the negation of `t` and `+t` as `t`, and both fail exactly when `t` does |
| `Prices.ParseWhole` | concat_data.py:72 | a string of digits reads as the whole number it spells |
| `Prices.ParseRejectsMalformed` | concat_data.py:72 | `"1.2.3"`, `"."` and `"-"` are not numbers |
| `Prices.ParsePointed` | concat_data.py:72 | `w.f` reads as the value of `w` plus the fraction `0.f` |
| `Prices.ParseFormatCents` | concat_data.py:72 | a price printed as dollars and cents reads back as its value |
| `Prices.CleanPadded` | concat_data.py:66-71 | `" $" + t + " "` cleans to `t` |
| `Prices.ParsePriceOfDisplayedPrice` | concat_data.py:66-72 | a displayed price `" $d.cc "` reads back as its value in the combiner and the detector alike |
| `Prices.RemoveMarksAround` | concat_data.py:69 | thousands separators and the dollar sign drop out between the digits |
| `Prices.CleanPriceExample` | concat_data.py:66-71 | `"$1,234.50"` cleans to `"1234.50"` |
| `Prices.ParsePrice` | concat_data.py:66-72 | a cell reads as a number exactly when its cleaned text is an optional sign followed by digits with at most one point and at least one digit; when the cleaned text does not start with `-` the number is non-negative |
| `Prices.ParsePriceExample` | concat_data.py:66-72 | `"$1,234.50"` reads as 1234.5 |
| `Prices.ParsePriceRejects` | concat_data.py:72 | `"N/A"` and the empty string are not numbers |
| `Calendar.ParseYmd` | concat_data.py:63 | an eight-digit name converts exactly when its digits name a real date |
| `Calendar.YearStep` | concat_data.py:180 | the next year starts one year length later |
| `Calendar.DayNumberMonotone` | concat_data.py:180-182 | later dates have larger day numbers |
| `Calendar.NextDateIsNextDay` | concat_data.py:180 | consecutive dates have consecutive day numbers, so subtracting 30 from a day number is `timedelta(days=30)` |
| `Calendar.YmdValue` | concat_data.py:63 | the digits `yyyymmdd` spell `y*10000 + m*100 + d` |
| `Calendar.YmdOrderIsDateOrder` | concat_data.py:27 | for date names, string order is calendar order |
| `Ingest.DateFolderIsWeaker` | concat_data.py:20-63 | every name that converts to a date is eight digits, but `"20251399"` is eight digits and no date |
| `Ingest.InRangeNeedsOrderedBounds` | concat_data.py:27 | a name lies in the range only when the start is at most the end |
| `Ingest.SelectedFolders` | concat_data.py:24-28 | exactly the eight-digit names within `[start, end]` are kept, each as often as it was listed |
| `Ingest.FolderOrder` | concat_data.py:32 | the visited folders are the selected ones, as often as they were listed |
| `Ingest.FolderOrderSorted` | concat_data.py:32 | folders are visited in string order of their names |
| `Ingest.InRangeIsDateRange` | concat_data.py:27 | for date names, the string range test is the date range test |
| `Ingest.SkipFileIff` | concat_data.py:35 | a path is skipped exactly when `combined` or `anomalies` occurs in it |
| `Ingest.OutputsAreSkipped` | concat_data.py:35-37 | the combined and anomaly outputs are never read back as input |
| `Ingest.NormaliseColumn` | concat_data.py:45 | a normalised column name has no upper-case letters and no surrounding whitespace |
| `Ingest.NormaliseColumnIdempotent` | concat_data.py:45 | normalising a normalised name changes nothing |
| `Ingest.ColumnIndex` | concat_data.py:48-60 | the first position of a column, or none exactly when it is absent |
| `Ingest.Field` | concat_data.py:52-57 | a missing column reads as the empty string |
| `Ingest.CaseVariantsCollide` | concat_data.py:45-69 | `Price,price,name` normalises to a header that repeats `price` |
| `Ingest.BuildFrame` | concat_data.py:45-72 | a frame exists exactly when `name` and `price` are columns, with one row per file row carrying the folder's date |
| `Ingest.BuildFrameMissingBrand` | concat_data.py:52-55 | without a brand column every row's brand is the empty string |
| `Ingest.LoadFile` | concat_data.py:35-72 | skipped, unreadable and nameless or priceless files give nothing; a usable file fails exactly when its folder name is no date or its header repeats `price` (the `.str` at 69 fails on a two-column selection); every loaded row carries the folder's date |
| `Ingest.FilesFrames` | concat_data.py:33-75 | frames are only appended, at most one per file; which ones is `FilesFramesCollects` |
| `Ingest.Outcome` | concat_data.py:35-72 | a file gives a frame exactly when it loads without error to one, and then gives that frame |
| `Ingest.CollectsSnoc` | concat_data.py:33-75 | appending one more file's outcome keeps the collected frames exactly those of the files that give one, in order |
| `Ingest.FilesFramesCollects` | concat_data.py:33-75 | a folder's loop appends exactly the frames of the files that give one, each once and in file order |
| `Ingest.FilesFramesKeeps` | concat_data.py:33-75 | every file that gives a frame contributes that frame |
| `Ingest.FilesFramesDated` | concat_data.py:33-75 | every row a folder's files add carries the folder's date |
| `Ingest.FramesOf` | concat_data.py:31-75 | every loaded row carries the date of one of the folders; which frames are loaded is `FramesOfCollects` |
| `Ingest.CollectsNestedSnoc` | concat_data.py:31-75 | appending one more folder's collected frames keeps the collection exact across folders, in visit order |
| `Ingest.FramesOfCollects` | concat_data.py:31-75 | the run loads exactly the frames of the files that give one, across all the folders, each once and in folder-then-file order |
| `Ingest.FramesOfKeeps` | concat_data.py:31-75 | every file of every visited folder that gives a frame contributes it |
| `Ingest.FilesFramesFailureOrigin` | concat_data.py:63-69 | an error of a folder's loop is the error of one of its files |
| `Ingest.FramesOfFailureOrigin` | concat_data.py:31-75 | an error of the run is the error of one file of one folder |
| `Ingest.FilesFramesFailurePersists` | concat_data.py:63 | an exception ends the loop with that error |
| `Ingest.FramesOfFailurePersists` | concat_data.py:63 | an exception in one folder ends the whole run with that error |
| `Ingest.LoadFrames` | concat_data.py:31-75 | the loop over folders and files computes the frames of the sorted selected folders |
| `Ingest.Complete` | concat_data.py:87 | only rows with a name and a price are kept, and every such row is |
| `Ingest.CompleteAppend` | concat_data.py:87 | the complete rows of a concatenation are the concatenation of the complete rows |
| `Ingest.CompleteSplit` | concat_data.py:87 | a row is kept once and in place exactly when it has a name and a price, and dropped otherwise |
| `Ingest.Flatten` | concat_data.py:80 | every row of every frame is in the concatenation, and nothing else |
| `Ingest.FlattenAppend` | concat_data.py:80 | concatenating two lists of frames concatenates their rows |
| `Ingest.FlattenSplit` | concat_data.py:80 | each frame contributes all its rows once, between the rows of the frames before and after it |
| `Ingest.FillBrand` | concat_data.py:83-84 | a missing brand becomes the empty string; every other field is kept |
| `Ingest.Combine` | concat_data.py:80-87 | the combined table has one row per complete row of the frames, its brand filled |
| `Ingest.CombineAppend` | concat_data.py:80-87 | combining a concatenation of frame lists concatenates their combined tables, so frame order and row order are kept |
| `Ingest.ConcatData` | concat_data.py:31-87 | no frames is the "No data found in range." error; an exception while loading is passed on; loaded frames, and only they, give the combined table |
| `Ingest.CombinedRowOrigin` | concat_data.py:80-87 | every combined row comes from a loaded row with a name and a price |
| `Anomalies.ConvertPrice` | concat_data.py:124-127 | a missing value stays missing; any other text must clean to a number, else reading fails |
| `Anomalies.ConvertPrices` | concat_data.py:136-143 | the converter applies to each row in order, and reading fails at the first rejected cell |
| `Anomalies.NormaliseBrand` | concat_data.py:148-157 | a brand is "(no brand)" exactly when it was missing, empty or already "(no brand)" |
| `Anomalies.ToObs` | concat_data.py:145 | a row is kept exactly when it has a price and a date |
| `Anomalies.LoadObservations` | concat_data.py:136-157 | reading fails on a rejected price, or when "(no brand)" already is a brand (`add_categories` refuses it) |
| `Anomalies.Observations` | concat_data.py:145 | dropping rows never adds any |
| `Anomalies.ObservationsAppend` | concat_data.py:145 | the observations of a concatenation of rows are the concatenation of their observations |
| `Anomalies.ObservationsSplit` | concat_data.py:145 | a row yields its observation once and in place when it has a price and a date, and nothing otherwise |
| `Anomalies.ObservationsOrigin` | concat_data.py:145 | every observation comes from a row of the file |
| `Anomalies.ObservationsKept` | concat_data.py:145 | every row with a price and a date yields its observation |
| `Anomalies.LoadedRows` | concat_data.py:136-157 | each observation has the parsed price and date of a file row, and reads "(no brand)" exactly when that row had no brand or an empty one |
| `Anomalies.LoadedKeeps` | concat_data.py:145 | a row with a parsable price and a date is observed |
| `Anomalies.GroupOf` | concat_data.py:168 | a product's group holds only its observations, and all of them |
| `Anomalies.GroupOfAppend` | concat_data.py:168 | the group of a concatenation is the concatenation of the groups |
| `Anomalies.GroupOfSplit` | concat_data.py:168 | an observation appears in its product's group once and in place, and in no other group |
| `Anomalies.InWindow` | concat_data.py:180-183 | only rows dated within the bounds are kept, and all of them |
| `Anomalies.InWindowAppend` | concat_data.py:182-183 | the window of a concatenation is the concatenation of the windows |
| `Anomalies.InWindowSplit` | concat_data.py:182-183 | a row is kept once and in place exactly when its date lies within the bounds |
| `Anomalies.Median` | concat_data.py:200 | the median lies between the smallest and the largest level |
| `Anomalies.MedianOrderIndependent` | concat_data.py:189-200 | the median does not depend on the order `unique()` lists the levels in |
| `Anomalies.TwoLevelMedian` | concat_data.py:200 | the median of two levels is their mean |
| `Anomalies.PctDiff` | concat_data.py:201 | the percentage difference times the median is 100 times the distance from it |
| `Anomalies.ManualRuleDivisionFree` | concat_data.py:201-202 | the 30% rule holds exactly when the distance from the median is at least 30% of the median's size |
| `Anomalies.Classify` | concat_data.py:194-224 | flat exactly with one level equal to the latest price; otherwise a zero median is the division error; the manual flag is the 30% rule; the model is asked only with at least three levels |
| `Anomalies.DirectionOf` | concat_data.py:231-236 | higher exactly for a positive difference, lower exactly for a negative one, no change exactly for zero |
| `Anomalies.DirectionName` | concat_data.py:231-236 | each direction has its own column text, `higher_vs_30d_median`, `lower_vs_30d_median` or `no_change` |
| `Anomalies.Reason` | concat_data.py:238-253 | the reason is empty exactly when no rule fired |
| `Anomalies.Split` | concat_data.py:253 | splitting gives at least one part, none containing the separator |
| `Anomalies.RoundCents` | concat_data.py:250-251 | the rounded value is a whole number of cents, at most half a cent from the input |
| `Anomalies.RoundCentsExact` | concat_data.py:250-251 | whole cents are not changed by rounding |
| `Anomalies.RoundCentsIdempotent` | concat_data.py:250-251 | rounding twice is rounding once |
| `Anomalies.BuildRecord` | concat_data.py:244-254 | a record names the product, carries the latest date and price, the median and difference within half a cent, the direction text of the unrounded difference, and a reason that is empty exactly when no rule fired |
| `Anomalies.Latest` | concat_data.py:173-174 | the latest row is a row of the group with the newest date |
| `Anomalies.Levels` | concat_data.py:189 | the levels are pairwise different and no more numerous than the window's rows |
| `Anomalies.Window` | concat_data.py:180-183 | the window of a non-empty group is never empty, so the empty-window exit at 185-186 is never taken |
| `Anomalies.DetectEntity` | concat_data.py:168-254 | under three rows, nothing; it fails exactly on a zero median; it reports exactly when the model or the median rule fires |
| `Anomalies.LatestIsNewest` | concat_data.py:173-174 | among the rows with the newest date, the latest row is the last one |
| `Anomalies.ResortIsIdentity` | concat_data.py:159-173 | sorting the date-sorted series again changes nothing |
| `Anomalies.WindowMembers` | concat_data.py:179-183 | the window is exactly the rows dated within 30 days up to and including the latest date |
| `Anomalies.LatestPriceIsALevel` | concat_data.py:188-189 | the latest row is in its window and its price is a level |
| `Anomalies.FlatIffOneLevel` | concat_data.py:194-195 | the "single level close to the latest price" exit is taken exactly when there is a single level |
| `Anomalies.LevelsMembers` | concat_data.py:189 | the levels are exactly the prices of the window's rows |
| `Anomalies.FlatLevels` | concat_data.py:189-195 | a price that did not move in the window leaves the latest price as the only level |
| `Anomalies.FlatNeverReported` | concat_data.py:193-195 | a product whose price did not move in the window is never reported |
| `Anomalies.TwoLevelRule` | concat_data.py:198-203 | with two positive levels the model is never asked, and the latest price is flagged exactly when the higher level is at least 13/7 of the lower |
| `Anomalies.SpikeIsReported` | concat_data.py:198-254 | four days at 10.00, then 20.00, gives a record with median 15.00, difference 33.33, direction `higher_vs_30d_median`, reason `median_diff_30pct` |
| `Anomalies.SmallStepIsNotReported` | concat_data.py:198-228 | four days at 10.00, then 13.50, is not reported |
| `Anomalies.RecordFields` | concat_data.py:173-254 | a record names its product and carries the latest row's date, price and weight; the rounded median and difference; the direction text of the unrounded difference; and the non-empty reason of the rules that fired |
| `Anomalies.DirectionMeaning` | concat_data.py:231-236 | with a positive median, the direction says whether the latest price is above, below or at the median |
| `Anomalies.ReasonTagsMembers` | concat_data.py:238-242 | each tag is listed exactly when its rule fired |
| `Anomalies.SplitJoin` | concat_data.py:253 | splitting a join of separator-free parts gives the parts back |
| `Anomalies.ReasonRoundTrip` | concat_data.py:238-253 | the reason column splits back into the tags that fired |
| `Anomalies.Keys` | concat_data.py:168 | every product is listed once |
| `Anomalies.KeyList` | concat_data.py:168 | the listed keys are exactly the keys of the named observations |
| `Anomalies.KeysAreGroups` | concat_data.py:168 | a product is iterated exactly when its group is non-empty |
| `Anomalies.CollectRecords` | concat_data.py:165-254 | there are no more records than products |
| `Anomalies.CollectSound` | concat_data.py:244-254 | every record is the report of one of the products |
| `Anomalies.CollectComplete` | concat_data.py:226-254 | every reported product has its record in the result |
| `Anomalies.CollectFailsIff` | concat_data.py:168-228 | the run fails exactly when one product fails |
| `Anomalies.CollectKeysDistinct` | concat_data.py:244-254 | with distinct products, no product is reported twice |
| `Anomalies.ProductReportKeyed` | concat_data.py:244-246 | a product's record carries that product's brand and name |
| `Anomalies.EntityPositiveNoFailure` | concat_data.py:200-201 | with positive prices a product never fails |
| `Anomalies.PositivePricesNeverFail` | concat_data.py:168-228 | with positive prices the run never fails |
| `Anomalies.ReportContents` | concat_data.py:165-254 | every record is the report of a product with at least three rows; no product appears twice; every reported product is present |
| `Anomalies.Anomalies` | concat_data.py:136-254 | a loading error ends the run with that error; otherwise there is at most one record per product |
| `Anomalies.GetAnomalies` | concat_data.py:136-254 | the loop over the products computes the anomaly report |
| `Aldi.SkipSpaces` | aldi.py:28 | greedy `\s*` stops at the first non-whitespace character |
| `Aldi.SlashFrom` | aldi.py:28 | the position of the next `/`, or the end |
| `Aldi.GroupAt` | aldi.py:28 | the captured group is non-empty and has no `/` |
| `Aldi.FindFrom` | aldi.py:28 | `re.search` finds the leftmost position where the pattern matches |
| `Aldi.CleanAvg` | aldi.py:18-31 | with no match the input is returned; with a match the result has no surrounding whitespace |
| `Aldi.CleanAvgHasNoSlash` | aldi.py:28-30 | with a match the result has no `/` |
| `Aldi.MatchesAtIff` | aldi.py:28 | the pattern matches at a position exactly when `avg.` (any case) is there, followed by a character other than `/` |
| `Aldi.CleanAvgAt` | aldi.py:28-31 | the result is the stripped text between the first matching `avg.` and the next `/` |
| `Aldi.StrippedGroup` | aldi.py:28-30 | the stripped group equals the stripped text up to the slash, including when `\s*` backtracks |
| `Aldi.NoDotIsKept` | aldi.py:29-31 | a weight without a dot is returned unchanged |
| `Aldi.AvgThenSlash` | aldi.py:20-24 | `"avg. " + t + "/" + rest` gives `t` |
| `Aldi.AvgToEnd` | aldi.py:21-25 | `"avg. " + t` gives `t` |
| `Aldi.ExamplePiece` | aldi.py:24 | `"avg. 3 lb/piece"` gives `"3 lb"` |
| `Aldi.ExampleKilograms` | aldi.py:25 | `"avg. 5kg"` gives `"5kg"` |
| `Aldi.ExampleUnchanged` | aldi.py:26 | `"total 4 lb"` is unchanged |
| `Aldi.ExampleFileSeparator` | aldi.py:28-30 | `"avg.\x1c5kg"` gives `"5kg"`: `\s` and `strip` treat the separator as whitespace |
| `Aldi.SlashAfterAvg` | aldi.py:28 | a `/` right after `avg.` defeats the match there |
| `Aldi.SpacesThenSlash` | aldi.py:28-30 | `"avg. /..."` gives the empty string: the backtracked group is one blank |

## Behaviour of the code worth knowing

The model follows the code in each of these places:
- **Constants.** The 30-day window, the 30% threshold and the minimum of three rows are hard-coded (concat_data.py:166-170, 180). The model keeps them as constants.
- **Keys are not trimmed.** Products are grouped on brand and name exactly as read, so the model does not trim them.
- **Zero medians.** The percentage difference divides by the median (concat_data.py:201 and 223). A zero median raises `ZeroDivisionError` and ends the run; the model returns the error `ZeroMedian`. A negative median is divided by like any other.
- **Repeated price columns.** A header such as `Price,price,name` makes `df["price"]` a two-column table. The `.str` accessor at concat_data.py:69 then raises outside the `try`, ending the run. The model returns the error `RepeatedPriceColumn`.
- **A rise from 10.00 to 13.50 is not reported.** The latest price always lies in its own window, so four days at 10.00 followed by 13.50 give the levels {10.00, 13.50}. The median is 11.75 and the difference about 14.9%. Two levels are too few for the model, so the product is not reported (`SmallStepIsNotReported`).

## Left out

- **I/O and the clock.** Listing folders, globbing files, parsing CSV text, writing the output CSVs and printing are not modelled (concat_data.py:89-96 and 256-267, debug prints at 36 and 190-191). Folders arrive with their files, and files with their parsed tables. The start and end dates that the code derives from `date.today()` are parameters.
- **The isolation forest.** It is not modelled. It is the parameter `isOutlier`, which receives the distinct levels and the latest price.
- **Floating point.** Prices and percentages are exact reals. `RoundCents` rounds exact ties to even.
- **`np.isclose`.** It is exact equality. `FlatIffOneLevel` shows this makes no difference, because the latest price is itself one of the levels.
- **Number syntax.** Only a sign, digits and at most one decimal point are read. Exponents, `inf` and `nan`, which both `float()` and `pd.to_numeric` accept, are left out. Underscores between digits are rejected. `pd.to_numeric` rejects them too, and `errors="coerce"` turns such a cell into NaN, as the model does. Only the detector's `float()` accepts them.
- **Case and digits.** `lower` changes only ASCII letters, and `\d` matches only ASCII digits. Python also lower-cases other letters and lets `\d` match other Unicode decimal digits. Whitespace follows Python's full `str.isspace` set.
- Ingest.LoadFile: of the repeated columns only a repeated `price` is an error. A repeated `name`, `brand` or `weight` column is read from its first copy. When every frame has the same columns, pandas would carry every copy into the combined table, and how `dropna` treats them is not modelled. When the frames' column sets differ, `pd.concat` (concat_data.py:80) cannot align a frame whose labels repeat and raises `InvalidIndexError`, which ends the run. The model does not fail there.
- **Empty price cells in the detector.** An empty price cell reaches the converter as whatever the CSV reader delivers. A missing value (`None`) stays missing. Empty text `Some("")` is rejected, as `float("")` would be.
- **Pandas' timestamp range.** Day numbers are unbounded.
- Anomalies.GetAnomalies: records come out in order of each product's first appearance in the file. pandas would list the groups in the order of the brand and name sort at concat_data.py:159. The records and their contents are the same; only their order differs.
- Anomalies.Median: its contract gives only the bounds. The exact value for two levels is `TwoLevelMedian`, and its independence from order is `MedianOrderIndependent`.
