# Fitness-tracker preprocessing, modelled in Dafny

This project models the preprocessing script `src/data/make_dataset.py` of the fitness-tracker
repository. The script turns MetaMotion accelerometer and gyroscope recordings into one table
of 200 ms samples tagged with participant, exercise label, weight category and set number.

The script runs these steps:

1. **Reading the files** (`read_data_from_files`, lines 13-58). Each file is tagged from its name.
   - The name is split on `-`.
   - The participant is field 0 with any run of the characters of `'../../MetaMotion\` stripped
     from its front.
   - The label is field 1.
   - The category is field 2 with any run of `1`, `2`, `3` stripped from its end, then any run of
     the characters of `_MetaWear_2019`.
   - A name containing `Accelerometer` gets the next accelerometer set number and is appended
     to the accelerometer table. Independently, a name containing `Gyroscope` does the same for
     the gyroscope table.
   - Each table is then indexed by its epoch milliseconds, and three time columns are deleted.
   - Module `Ingest` models this loop twice:
     - as an imperative method with two counters and two growing tables;
     - as a fold over the files with a closed form, which the method is proved equal to.
   - Module `FileNames` models the name parsing, over Python's `split`/`lstrip`/`rstrip`/`in`
     (module `PyStr`).
2. **Merging** (lines 76-93). `pd.concat(axis=1)` places the first three accelerometer columns
   beside the seven gyroscope columns, and the ten columns are then renamed (module `Merge`).
   - The merged index is the accelerometer index when the two indexes are equal or the
     gyroscope table is empty, and the gyroscope index when the accelerometer table is empty.
   - Otherwise it is the union of the two indexes, sorted by time. Each timestamp appears as
     often as in the index that repeats it most.
   - A table whose index is the merged index is placed row by row. The other table is looked
     up by timestamp. A table whose index repeats a timestamp cannot be looked up, so the
     merge raises then.
   - Each row lacks the cells of the table that has no reading at its timestamp.
   - The row order matters further on, because `[:1000]` at lines 118-120 slices by position.
   - The `dropna()` of line 77 discards its result, so the merged table keeps the rows with
     missing cells, and they count among those 1000 rows.
3. **The preview** (lines 118-122). `data_merged` is replaced by a resample of its first 1000
   rows (module `Pipeline`):
   - the numeric columns, `set` included, by `mean` per 200 ms bin;
   - the text columns by `ffill` to each bin start.
4. **Per-day resampling** (lines 104-116 and 127-129). The table is split by calendar day, and
   each day is resampled on the 200 ms grid:
   - `mean` for the six sensor channels and `last` for the four metadata columns
     (module `Aggregate`);
   - the bins with a missing value are dropped, and the days are concatenated in order
     (modules `TimeGrid` and `Resample`).
5. **The cast** (line 133). `set` is cast to `int`, which truncates toward zero and raises on a
   missing value (module `Pipeline`).

The script as written is `Pipeline.ScriptTail` (with `Pipeline.ScriptOutput` from the files on).
The composition the per-day pass is written for, which skips the preview, is
`Pipeline.CorrectedTail` (`Pipeline.Preprocess`).

Timestamps are integer milliseconds. Values are `real`. A missing cell (NaN) is `None`.
Every exception the script can raise is an `Error` of module `Results`:
- the IndexError of a malformed name;
- the unbound `df` after an empty file list;
- the KeyError of a sensor without files;
- the alignment error of repeated timestamps;
- `pd.concat` of no days;
- `astype(int)` of a missing value.

## Model

| member | source | states |
|---|---|---|
| PyStr.Split | src/data/make_dataset.py:22-24 | `str.split("-")`: one more field than separators, no field holds a separator, and joining the fields gives the name back |
| PyStr.SplitJoin | src/data/make_dataset.py:22-24 | round trip: splitting a join of separator-free fields gives the fields back |
| PyStr.SplitCons | src/data/make_dataset.py:22-24 | splitting a separator-free prefix and a separator off a string yields that prefix as the first field |
| PyStr.LStrip | src/data/make_dataset.py:22 | `lstrip(chars)` keeps a suffix: everything dropped is in the set, and what is kept does not start with a character of the set |
| PyStr.RStrip | src/data/make_dataset.py:24 | `rstrip(chars)` keeps a prefix: everything dropped is in the set, and what is kept does not end with a character of the set |
| PyStr.LStripIdempotent | src/data/make_dataset.py:22 | stripping again with the same set changes nothing |
| PyStr.RStripIdempotent | src/data/make_dataset.py:24 | stripping again with the same set changes nothing |
| PyStr.Contains | src/data/make_dataset.py:33 | `sub in s` holds exactly when `sub` occurs at some position of `s` |
| FileNames.ParticipantOf | src/data/make_dataset.py:22 | the participant is a suffix of field 0; it is empty or does not start with a path character; every character dropped is a path character |
| FileNames.CategoryOf | src/data/make_dataset.py:24 | the category is a prefix of field 2; it is empty or does not end with a device-suffix character; every character dropped is a digit 1-3 or a device-suffix character |
| FileNames.ParseTag | src/data/make_dataset.py:22-24 | a name is tagged exactly when it has at least three fields; otherwise it raises an error that names it |
| FileNames.ParseTagSpec | src/data/make_dataset.py:22-24 | a name raises, with an error that names it, exactly when it has fewer than two `-`; otherwise the tag is made of the first three fields |
| FileNames.SplitThree | src/data/make_dataset.py:22-24 | a name `a-b-c…` with separator-free `a`, `b`, `c` splits into at least three fields, and the first three are `a`, `b` and `c` |
| FileNames.TagFields | src/data/make_dataset.py:22-24 | a name `a-b-c…` is tagged from `a`, `b` and `c`, whatever follows; stripping the participant again changes nothing |
| FileNames.CategoryIdempotentUnlessThree | src/data/make_dataset.py:24 | applying both category strips again changes the category exactly when it ends in `3` |
| FileNames.CategoryKeepsThree | src/data/make_dataset.py:24 | `heavy3_MetaWear_2019` becomes `heavy3`, which renormalises to `heavy` |
| FileNames.CategoryExamples | src/data/make_dataset.py:24 | `heavy2` becomes `heavy`; `medium_MetaWear_2019` becomes `medium` |
| FileNames.ParticipantExample | src/data/make_dataset.py:22 | `../../MetaMotion/A` becomes participant `A` |
| FileNames.RStripTail | src/data/make_dataset.py:24 | a tail made only of stripped characters does not affect `rstrip` |
| FileNames.LStripHead | src/data/make_dataset.py:22 | a head made only of stripped characters does not affect `lstrip` |
| FileNames.DeviceSuffixStripped | src/data/make_dataset.py:24 | appending the device suffix `_MetaWear_2019` does not change the result of the second strip |
| Ingest.Classify | src/data/make_dataset.py:22-38 | a file is tagged exactly when its name has three fields, otherwise it raises the IndexError naming it; its rows are kept |
| Ingest.Apply | src/data/make_dataset.py:33-41 | each counter advances by one exactly when the name holds its marker; each table only grows, by the file's rows when the name holds its marker, and the rows appended carry the counter's value before it advances |
| Ingest.Step | src/data/make_dataset.py:20-41 | one iteration raises exactly on a malformed name; otherwise the tables only grow and each counter advances by at most one |
| Ingest.Run | src/data/make_dataset.py:20-41 | the loop succeeds exactly when every name has three fields; the tables only grow, and each counter advances by at most the number of files |
| Ingest.Ingest | src/data/make_dataset.py:13-58 | an empty file list raises the error of the unbound `df`; a result means every name was well formed |
| Ingest.TagRows | src/data/make_dataset.py:28-30 | a file's rows keep their epoch and axes in order, and every one carries the file's participant, label, category and set number |
| Ingest.AddFile | src/data/make_dataset.py:33-41 | the two independent `if`s, run on variables, leave the counters and tables exactly as one pass of the loop body leaves them |
| Ingest.ReadDataFromFiles | src/data/make_dataset.py:13-58 | the loop with two counters and two growing tables returns what the fold `Ingest` returns, error or tables |
| Ingest.InvariantStep | src/data/make_dataset.py:20-41 | one pass over a well-formed file keeps the loop invariant: the state is the closed form of the files seen |
| Ingest.LoopStep | src/data/make_dataset.py:20-24 | one more iteration classifies one more file, in order |
| Ingest.StepMalformed | src/data/make_dataset.py:22-24 | an iteration on a name with fewer than three fields raises the IndexError |
| Ingest.RunAt | src/data/make_dataset.py:20 | the loop from file `i` is one step on file `i`, then the rest |
| Ingest.ClassifyWellFormed | src/data/make_dataset.py:22-24 | a name with three fields or more is tagged from them, and its two sensor tests are the substring tests of lines 33 and 38 |
| Ingest.RunClosedForm | src/data/make_dataset.py:20-41 | the loop either raises the error of the first malformed name or reaches the closed form: each counter advanced once per file of its sensor, each table its files' rows numbered on |
| Ingest.IngestClosedForm | src/data/make_dataset.py:13-58 | `read_data_from_files` returns each sensor's files' rows, the k-th file of the sensor carrying set k counted from 1, or raises for a malformed name, an empty file list, or a sensor without files |
| Ingest.AfterStart | src/data/make_dataset.py:17-18 | from the initial state, each counter ends at one more than its sensor's number of files, and each table is its files numbered from 1 |
| Ingest.ApplyAfter | src/data/make_dataset.py:33-41 | one pass of the loop body equals the closed form for one file |
| Ingest.AfterAppend | src/data/make_dataset.py:20-41 | the closed form of two stretches of files composes |
| Ingest.AfterSnoc | src/data/make_dataset.py:20-41 | the closed form of one more file is one more pass of the loop body |
| Ingest.NumberedAppend | src/data/make_dataset.py:34-41 | numbering two runs of files continues the count across them |
| Ingest.TableAppend | src/data/make_dataset.py:36 | extending a table twice is extending it by the concatenation, in order |
| Ingest.NumberedAt | src/data/make_dataset.py:34-41 | the k-th file of a sensor is tagged with set `first + k`, between the files before and after it |
| Ingest.NumberedSets | src/data/make_dataset.py:34-41 | every row of a sensor's table carries a set number between `first` and `first + files - 1`, and comes from the k-th of the sensor's files with that file's tag and set `first + k` |
| Ingest.Picked | src/data/make_dataset.py:33-41 | selecting a sensor's files never yields more files than there are |
| Ingest.PickedMembers | src/data/make_dataset.py:33-41 | a sensor's files are exactly the files whose name contains its marker |
| Ingest.PickedAppend | src/data/make_dataset.py:33-41 | selecting a sensor's files distributes over concatenation |
| Ingest.PickedPicked | src/data/make_dataset.py:33-41 | selecting a sensor's files twice selects nothing more |
| Ingest.AccIgnoresOtherFiles | src/data/make_dataset.py:33-36 | the accelerometer table and counter depend only on the accelerometer files |
| Ingest.GyrIgnoresOtherFiles | src/data/make_dataset.py:38-41 | the gyroscope table and counter depend only on the gyroscope files |
| Ingest.ApplyNeither | src/data/make_dataset.py:33-41 | a file with neither marker changes neither counter nor table |
| Ingest.ApplyBoth | src/data/make_dataset.py:33-41 | a file with both markers is appended to both tables and advances both counters |
| Ingest.ClassifyAllSuccess | src/data/make_dataset.py:20-24 | tagging the files succeeds exactly when every name has three fields |
| Ingest.ClassifyAllValues | src/data/make_dataset.py:20-24 | when tagging succeeds, every file is tagged in place, in order |
| Ingest.ClassifyAllFailure | src/data/make_dataset.py:20-24 | when tagging fails, it fails with the error of the first malformed name |
| Ingest.ClassifyAllSnoc | src/data/make_dataset.py:20-24 | tagging one more file extends the tagged list by that file |
| Merge.SensorCells | src/data/make_dataset.py:49-56 | a sensor table keeps seven columns after the three time columns are deleted |
| Merge.Times | src/data/make_dataset.py:45-46 | the index of a sensor table is its rows' epochs, in order |
| Merge.Find | src/data/make_dataset.py:76 | a row is found at a timestamp exactly when the table's index holds that timestamp |
| Merge.Combine | src/data/make_dataset.py:76-93 | a merged row carries its timestamp; its three accelerometer cells have values exactly when the accelerometer has a reading there, and its seven gyroscope and metadata cells exactly when the gyroscope has one |
| Merge.Insert | src/data/make_dataset.py:76 | inserting a timestamp into a sorted index keeps it sorted and adds exactly that timestamp |
| Merge.Sort | src/data/make_dataset.py:76 | sorting an index gives a sorted permutation of it |
| Merge.UnionAscending | src/data/make_dataset.py:76 | the union of two sorted indexes is sorted and holds each timestamp as often as the index that holds it most |
| Merge.UnionIndex | src/data/make_dataset.py:76 | the index the merge aligns on holds each timestamp as often as the index that holds it most, holds exactly the timestamps of either table, and is sorted when the two indexes differ and neither is empty |
| Merge.Aligned | src/data/make_dataset.py:76 | a table has a row at a position of the merged index exactly when its index holds that timestamp, and the row is one of its own rows at that timestamp |
| Merge.Merge | src/data/make_dataset.py:76-93 | the merge can only raise the alignment error of repeated timestamps |
| Merge.MergeAt | src/data/make_dataset.py:76 | the merged table has one row per position of the merged index, combining the two tables' rows aligned there |
| Merge.MergeOrder | src/data/make_dataset.py:76 | when the two indexes differ and neither is empty, the merged rows come in time order, whatever order the files gave them |
| Merge.MergeSortsUnion | src/data/make_dataset.py:76 | an accelerometer reading and two gyroscope readings, the earlier one before it, merge into two rows in time order: a gyroscope-only row, then a complete one |
| Merge.MergeRepeatedUnion | src/data/make_dataset.py:76 | two accelerometer rows and one gyroscope row at one timestamp merge without error into two complete rows |
| Merge.MergeRepeatedReindexed | src/data/make_dataset.py:76 | two accelerometer rows at one timestamp and a gyroscope row at another raise the alignment error |
| Merge.MergeLayout | src/data/make_dataset.py:76-93 | the merged row has the ten renamed columns: three accelerometer axes followed by the seven gyroscope columns |
| Merge.CombineComplete | src/data/make_dataset.py:76 | a merged row is complete exactly when both sensors have a reading at its timestamp |
| Merge.MergeFails | src/data/make_dataset.py:76 | the merge raises exactly when a table whose index repeats a timestamp differs from the merged index; two tables without repeated timestamps always merge, and so do two tables with equal indexes |
| Merge.MergeRows | src/data/make_dataset.py:76-77 | the merged table has one row per entry of the merged index, at that timestamp; it has a row for a timestamp exactly when either table has it; a row is complete exactly when both tables have its timestamp |
| Frame.Cells | src/data/make_dataset.py:82-93 | a merged row has one cell per renamed column |
| Frame.CompleteCells | src/data/make_dataset.py:77 | a row is complete exactly when every one of its ten cells has a value |
| Frame.DropNA | src/data/make_dataset.py:129 | `dropna()` never adds rows |
| Frame.DropNAMembers | src/data/make_dataset.py:129 | `dropna()` keeps exactly the complete rows |
| Frame.DropNAAppend | src/data/make_dataset.py:129 | `dropna()` distributes over concatenation |
| Frame.DropNAKeepsComplete | src/data/make_dataset.py:129 | a table without missing cells is kept whole |
| Frame.DropNAIdempotent | src/data/make_dataset.py:129 | dropping twice drops nothing more |
| TimeGrid.Bucket | src/data/make_dataset.py:118 | a timestamp lies in the bin `[b, b + 200)` with `b` a multiple of 200 |
| TimeGrid.BucketUnique | src/data/make_dataset.py:118 | that bin is the only one: any multiple of 200 at most 199 ms before the timestamp is its bin |
| TimeGrid.BucketMonotone | src/data/make_dataset.py:129 | bins respect time order |
| TimeGrid.Day | src/data/make_dataset.py:127 | a timestamp lies in the day `[d·86400000, (d+1)·86400000)` |
| TimeGrid.DayUnique | src/data/make_dataset.py:127 | that day is the only one |
| TimeGrid.DayMonotone | src/data/make_dataset.py:127 | days respect time order |
| TimeGrid.BucketSameDay | src/data/make_dataset.py:127-129 | a bin starts in the day of each of its timestamps: 200 divides 86 400 000 |
| TimeGrid.SameBucketSameDay | src/data/make_dataset.py:127-129 | two readings in the same bin share a calendar day, so no bin bridges two days |
| TimeGrid.BinInDay | src/data/make_dataset.py:127-129 | the k-th bin of a day starts within that day |
| TimeGrid.DaySpan | src/data/make_dataset.py:127 | a timestamp of one of days `first` .. `last` lies in their span of bins |
| Aggregate.InBucket | src/data/make_dataset.py:129 | a bin never holds more readings than the table |
| Aggregate.InBucketMembers | src/data/make_dataset.py:129 | a bin holds exactly the readings whose bin start it is |
| Aggregate.InBucketAppend | src/data/make_dataset.py:129 | the readings of a bin in two stretches of a table are those of the first stretch followed by those of the second, in order |
| Aggregate.InBucketCount | src/data/make_dataset.py:129 | a bin holds each reading of the table whose bin start it is as many times as the table does, and no other reading |
| Aggregate.InBucketNone | src/data/make_dataset.py:129 | a bin no reading falls into holds nothing |
| Aggregate.LatestSpec | src/data/make_dataset.py:111-114 | the row picked as latest satisfies the test; no row that satisfies it is later in time; on a tie the later row wins |
| Aggregate.Latest | src/data/make_dataset.py:111-114 | the position picked, if any, is that of a row satisfying the test; -1 stands for none |
| Aggregate.Last | src/data/make_dataset.py:111-114 | `last` is missing exactly when no row has a value, and otherwise is the value of one of the rows |
| Aggregate.LastSpec | src/data/make_dataset.py:111-114 | `last` is missing exactly when no row has a value; otherwise it is the value of the latest row in time that has one |
| Aggregate.Mean | src/data/make_dataset.py:105-110 | `mean` is missing exactly when no row has a value |
| Aggregate.MeanBounds | src/data/make_dataset.py:105-110 | the mean lies between the least and the greatest value averaged |
| Aggregate.CountZero | src/data/make_dataset.py:105-110 | no value is counted exactly when no row has one |
| Aggregate.SumAtLeast | src/data/make_dataset.py:105-110 | a lower bound on every value bounds the sum by the count |
| Aggregate.SumAtMost | src/data/make_dataset.py:105-110 | an upper bound on every value bounds the sum by the count |
| Aggregate.Sampling | src/data/make_dataset.py:104-116 | the `sampling` row of a bin is labelled with the bin start, and every one of its ten cells is missing when no reading falls into the bin |
| Aggregate.SamplingComplete | src/data/make_dataset.py:104-116 | the `sampling` row of a bin is complete exactly when every one of the ten columns has a value in some reading of the bin |
| Aggregate.SamplingEmpty | src/data/make_dataset.py:104-116 | an empty bin never survives `dropna()` |
| Aggregate.AtOrBefore | src/data/make_dataset.py:120 | `ffill` at a bin start finds a row exactly when some reading is at or before it, and then the latest such reading |
| Aggregate.MeanExample | src/data/make_dataset.py:105 | the mean of 1, 3 and 2 is 2 |
| Aggregate.LastExample | src/data/make_dataset.py:111 | `last` takes the latest reading in time, not the last in position |
| Resample.SamplingIsBinLocal | src/data/make_dataset.py:104-116 | `sampling` labels a row with its bin start, looks only at the bin's readings, and leaves a cell missing for an empty bin |
| Resample.TimeRange | src/data/make_dataset.py:129 | the earliest and latest timestamps are those of readings, and every reading lies between them |
| Resample.ResampleWhole | src/data/make_dataset.py:129 | resampling an empty table gives nothing; otherwise the k-th row is the aggregate of the k-th bin from the earliest reading's bin |
| Resample.Grid | src/data/make_dataset.py:129 | the grid has one row per bin |
| Resample.GridAt | src/data/make_dataset.py:129 | the k-th row of the grid aggregates the k-th bin |
| Resample.DayGroup | src/data/make_dataset.py:127 | a day's group never holds more readings than the table |
| Resample.DayGroupMembers | src/data/make_dataset.py:127 | a day's group holds exactly the readings of that day |
| Resample.InBucketDayGroup | src/data/make_dataset.py:127-129 | a bin of day `d` holds the same readings in day `d`'s group as in the whole table |
| Resample.OutIsDropNA | src/data/make_dataset.py:129 | the complete bins of a stretch are that stretch of the grid after `dropna()` |
| Resample.OutEmpty | src/data/make_dataset.py:129 | bins without readings produce no row |
| Resample.OutSplit | src/data/make_dataset.py:129 | the complete bins of two adjacent stretches are those of the first followed by those of the second |
| Resample.OutSame | src/data/make_dataset.py:129 | two tables whose bins aggregate alike over a stretch give the same complete bins there |
| Resample.OutBetween | src/data/make_dataset.py:129 | the complete bins from `lo` to `hi` come in strictly increasing time and are exactly the complete aggregates at bin starts from `lo` to `hi` |
| Resample.WholeIsOut | src/data/make_dataset.py:129 | resampling a table and dropping gives the complete bins from the first reading's bin through the last's |
| Resample.Trim | src/data/make_dataset.py:129 | resampling readings that all lie in a stretch of bins, then dropping, gives the complete bins of that whole stretch, however far it reaches beyond the readings |
| Resample.OutDayGroup | src/data/make_dataset.py:127-129 | over one day's bins, the day's group and the whole table give the same complete bins |
| Resample.PerDayDays | src/data/make_dataset.py:127-129 | resampling each day's group and dropping gives, day by day, that day's complete bins of the whole table |
| Resample.ByDay | src/data/make_dataset.py:127-129 | on a table with readings, the per-day pass succeeds with the concatenation of the days from the first reading's day through the last's |
| Resample.OneDay | src/data/make_dataset.py:127-129 | a day's resampled and dropped group is that day's complete bins of the whole table |
| Resample.ConcatDaysOut | src/data/make_dataset.py:129 | consecutive days tile the grid |
| Resample.DaysCover | src/data/make_dataset.py:127 | the days from the first reading's to the last's hold every reading |
| Resample.ResampleByDayIsWhole | src/data/make_dataset.py:127-129 | splitting by day before resampling changes nothing: the result equals resampling the whole table and dropping the incomplete bins |
| Resample.OutMembers | src/data/make_dataset.py:129 | the kept rows of a stretch are exactly its complete aggregates, at bin starts within it |
| Resample.OutIncreasing | src/data/make_dataset.py:129 | the kept rows come in strictly increasing time |
| Resample.ResampleByDay | src/data/make_dataset.py:127-129 | the per-day pass raises exactly on an empty table, with the error of concatenating no days |
| Resample.ResampleByDaySpec | src/data/make_dataset.py:127-129 | the per-day pass raises exactly on an empty table; otherwise its rows, in strictly increasing time, are exactly the complete aggregates at bin starts from the first reading's bin to the last's |
| Pipeline.Head | src/data/make_dataset.py:118-120 | `[:1000]` keeps the first 1000 rows, or all of them, unchanged and in order |
| Pipeline.PreviewAt | src/data/make_dataset.py:118-122 | the preview row of a bin is labelled with the bin start; its `set` is missing exactly when no reading of the bin has one; its text cells are missing when no reading is at or before the bin start |
| Pipeline.Preview | src/data/make_dataset.py:118-122 | every row of the preview is the preview row of its own bin, computed from the first 1000 rows only |
| Pipeline.PreviewGridded | src/data/make_dataset.py:118-122 | the preview has exactly one row per bin, from the bin of the earliest of the first 1000 rows to that of the latest |
| Pipeline.PreviewTableGridded | src/data/make_dataset.py:118-122 | the resample of a non-empty table with `mean` and `ffill` has one row per bin, from the earliest reading's bin to the latest's |
| Pipeline.PreviewHead | src/data/make_dataset.py:118-122 | only the first 1000 rows reach the preview, which is empty exactly when the table is |
| Pipeline.InBucketGridded | src/data/make_dataset.py:127-129 | on a table with one row per bin, every bin holds exactly its own row |
| Pipeline.SamplingSingle | src/data/make_dataset.py:104-116 | `sampling` of a bin with a single reading is that reading, moved to the bin start |
| Pipeline.MeanOne | src/data/make_dataset.py:105-110 | the mean of one value is that value |
| Pipeline.LastOne | src/data/make_dataset.py:111-114 | the last of one value is that value |
| Pipeline.GriddedSpan | src/data/make_dataset.py:129 | a table with one row per bin spans from its first row's time to `len - 1` bins after it |
| Pipeline.GriddedGrid | src/data/make_dataset.py:129 | the `sampling` grid of a table with one row per bin, over its own span, is the table |
| Pipeline.GriddedResample | src/data/make_dataset.py:129 | resampling a table with one row per bin with `sampling` gives it back |
| Pipeline.GriddedByDay | src/data/make_dataset.py:127-129 | on a table with one row per bin, the per-day pass only drops the rows with a missing cell |
| Pipeline.Trunc | src/data/make_dataset.py:133 | `astype(int)` rounds toward zero, for both signs |
| Pipeline.TruncWhole | src/data/make_dataset.py:133 | a whole number is cast to itself |
| Pipeline.CastRoundTrip | src/data/make_dataset.py:133 | the cast loses nothing on a whole `set`, and reading a sample back and casting again gives the sample |
| Pipeline.Cast | src/data/make_dataset.py:133 | the cast keeps every row when it succeeds, and can only raise the cast error |
| Pipeline.CastSpec | src/data/make_dataset.py:133 | the cast raises, with the cast error, exactly when a `set` is missing; otherwise it converts every row in place |
| Pipeline.CastAfterDropNA | src/data/make_dataset.py:129-133 | after `dropna()` the cast never raises and keeps every row |
| Pipeline.CastOne | src/data/make_dataset.py:133 | a single row with a set number casts to its sample |
| Pipeline.CastMembers | src/data/make_dataset.py:133 | casting rows whose sets are whole succeeds, keeps the time order, and gives exactly the samples that read back as the rows |
| Pipeline.MergeWholeSets | src/data/make_dataset.py:34-39 | every `set` of the merged table is a whole number, because it comes from an integer counter |
| Pipeline.SamplingWholeSet | src/data/make_dataset.py:114 | `last` of whole set numbers is whole |
| Pipeline.ResampledSets | src/data/make_dataset.py:114-129 | every row of the per-day pass over whole set numbers has a whole `set` |
| Pipeline.ScriptTail | src/data/make_dataset.py:118-133 | the script as written raises the error of concatenating no days on an empty merged table |
| Pipeline.CorrectedTail | src/data/make_dataset.py:127-133 | the per-day pass on the whole table raises the same error on an empty table |
| Pipeline.ScriptTailSpec | src/data/make_dataset.py:118-133 | the script as written raises exactly on an empty merged table; it never looks past row 1000, and it exports the cast of the dropped preview |
| Pipeline.CorrectedTailSpec | src/data/make_dataset.py:127-133 | the per-day pass and cast on the whole table raise exactly on an empty table; otherwise the samples, in strictly increasing time, are exactly the complete `sampling` rows at bin starts from the first reading's bin to the last's |
| Pipeline.ScriptOutput | src/data/make_dataset.py:13-133 | an error in reading the files reaches the caller unchanged; an empty file list raises the error of the unbound `df` |
| Pipeline.Preprocess | src/data/make_dataset.py:13-133 | the same for the corrected pipeline |
| Pipeline.SameFailures | src/data/make_dataset.py:13-133 | the script and the corrected pipeline raise on the same inputs with the same error, and differ only in the rows they export |
| Pipeline.ScriptDropsLoneReading | src/data/make_dataset.py:118-122 | one complete reading at 100 ms: the script as written exports nothing |
| Pipeline.CorrectedKeepsLoneReading | src/data/make_dataset.py:127-133 | the same reading: the per-day pass on the whole table exports its bin at 0 ms |
| Pipeline.SingleReadingBin | src/data/make_dataset.py:129 | resampling a table of one reading with `sampling` gives that reading back, moved to its bin start |
| Pipeline.LoneReadingResampled | src/data/make_dataset.py:127-129 | the per-day pass keeps a lone complete reading as its bin's row |

## Left out

- `src/data/models/train_model.py` is not part of this model. It is a model-training
  experiment built on foreign learners, random splits, floating-point scores and plots.
- File discovery (`glob`, line 11), `pd.read_csv` (line 26) and the pickle export (line 141)
  are I/O. Each file is a parameter carrying its name and its rows.
- The datetime conversion (lines 43-46) is left out: timestamps stay integer milliseconds,
  with days counted in UTC. The result of `pd.to_datetime` at line 43 is discarded by the
  script, so that line is not modelled at all. It is an error only when `df` is unbound,
  which the model does raise (`NoFiles`).
- The `dropna()` at line 77 discards its result, so the merged table keeps its incomplete
  rows. The model does the same. Those rows count among the 1000 rows that `[:1000]` keeps
  at lines 118-120, so they push complete rows out of the preview.
- Floating point is left out: means are exact `real` averages, and `set` is a `real` in the
  merged table.
- Pipeline.PreviewAt: pandas raises at line 120 when the first 1000 rows repeat a timestamp,
  because `resample(...).ffill()` reindexes them with a fill method, which pandas refuses on a
  non-unique index. The model does not raise there: `Aggregate.AtOrBefore` takes the latest
  reading at or before the bin start. The merged table repeats a timestamp only when a sensor
  table does (`Merge.MergeRepeatedUnion`).
- The column order of the preview at line 122 is left out: the numeric half comes first
  there, but rows are modelled by column name.
- `read_data_from_files` builds its tables by repeated `pd.concat`; the model appends
  sequences. Mutation and aliasing of DataFrames are not modelled.
- FileNames.CategoryIdempotentUnlessThree: states a weaker form of "re-applying the category
  strips is idempotent", because that does not hold. `heavy3_MetaWear_2019` normalises to
  `heavy3`, and `heavy3` normalises to `heavy` (`FileNames.CategoryKeepsThree`). The lemma
  states exactly when re-applying changes the result.
- Lines 127-129 read as a per-day pass over the whole merged table. But the code reassigns
  `data_merged` at line 122, so the per-day pass runs on the preview.
  The model follows the code (`Pipeline.ScriptTail`), and records the difference under
  Findings.

## Findings

| source | as written | input that shows it | evidently intended | confidence | as-written member | corrected member |
|---|---|---|---|---|---|---|
| src/data/make_dataset.py:118-122 | `data_merged` is replaced by a preview of its first 1000 rows. Text columns are forward-filled to each bin start, and the per-day pass of lines 127-129 then runs on that preview. A bin with no row at or before its start, or whose latest such row is accelerometer-only, gets no participant, label or category, and `dropna()` drops it. Rows after the first 1000 never reach the output. | one complete reading at 100 ms: `ScriptTail([Full(100)]) == Success([])` | the per-day pass runs on the whole merged table and keeps the reading's bin: `CorrectedTail([Full(100)]) == Success([CastRow(Full(0))])` | not executed | Pipeline.ScriptDropsLoneReading | Pipeline.CorrectedKeepsLoneReading |
