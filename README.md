# vacuobct rack uptime/downtime aggregator, modelled in Dafny

vacuobct reads a spreadsheet of vacuum-pressure readings. Column 0 holds the
time and each further column holds one rack's sensor. For every rack it
reports how many minutes the rack was up and down, and the share of each as a
percentage. The core is two Python functions in `main.py`:

- `converter_pressao` turns one cell into an optional number. A number stays
  as it is. A string is scanned for the leftmost-longest match of
  `-?\d+\.?\d*` after every `,` has become `.`. Anything else gives nothing.
- `analisar_por_rack` runs the pipeline:
  1. drop rows without a timestamp;
  2. sort by time and keep the first row of each timestamp;
  3. give each row the minutes since the previous row, with one minute for the first row;
  4. classify each reading: below -5 is downtime, -5 or more is uptime, no reading counts for neither;
  5. sum the minutes per state and turn them into percentages, one record per value column.

The project has four files:

- `wrappers.dfy` (module `Wrappers`): `Option` and `Result`.
- `parser.dfy` (module `PressureParser`): the cell converter, written as a
  left-to-right scanner. It is proved equal to a declarative statement of
  "leftmost, longest token of the regular language".
- `aggregator.dfy` (module `RackAnalysis`): the table, the pipeline as
  methods with loop invariants (sort, the repeated sort-and-dedup loop, the
  per-column loop), and the functions and lemmas that state what it computes.
- `examples.dfy` (module `RackExamples`): a worked example, traced through
  `AnalyzeByRack`'s contract.

Timestamps are whole seconds (`int`). Durations, sums and percentages are
exact `real`s. A cell is `Number(x)`, `NotANumber` (a float NaN), `Text(s)`
or `Other` (any other type).

### Behaviour worth knowing

- `"-- 3,5 kPa --"` converts to **+3.5**. A minus sign only counts when it
  immediately precedes a digit. Here a space separates it from the `3`, so
  the regular expression matches `3.5`.
- A table with **more than five columns** is an error. Line 20 assigns a
  five-label slice as the column index, and pandas rejects an index whose
  length differs from the frame's width.
- A table with **no timestamped row** is an error: line 25 reads
  `iloc[-1]` and `iloc[0]` of an empty column.
- An **unparseable timestamp** fails the whole table (line 22).
- A table with only the time column gives an empty list, when it has a
  stamped row and no unparseable stamp.

## Model

| member | source | states |
|---|---|---|
| PressureParser.ParsePressure | main.py:7-17 | A number is returned unchanged, a string goes through the text converter, and NaN or any other type gives None. The function is total, so the converter never raises. |
| PressureParser.ParseText | main.py:9-12 | The result is None exactly when the string has no ASCII digit. |
| PressureParser.ParseTextIsLeftmostLongest | main.py:10-12 | Any result is the value of a token `t[i..e]` of the comma-replaced text. The token is in the language of `-?\d+\.?\d*`, no token starts before `i`, and no longer token starts at `i`. |
| PressureParser.MatchIsLeftmostLongest | main.py:10 | The scanner's first match start and its end delimit exactly the leftmost-longest token. |
| PressureParser.MatchEndIsLongest | main.py:10 | The scanned span from a match start is a token, and no longer span from that start is one. |
| PressureParser.FindMatch | main.py:10 | Returns the leftmost position from which a match can start, or None when there is none. |
| PressureParser.MatchValueIsTokenValue | main.py:12 | The scanner's value equals the token's decimal reading, with the minus sign applied. |
| PressureParser.TokenStartsMatch | main.py:10 | A token can only start where the scanner is prepared to start a match. |
| PressureParser.NoMatchNoDigit | main.py:10-11 | The scanner finds no match exactly when the original string has no digit. |
| PressureParser.MatchEnd | main.py:10 | The end of the greedy match lies between the end of its integer part and the end of the text. That it is the longest token is stated by `MatchEndIsLongest`. |
| PressureParser.MatchValue | main.py:12 | The value of the match, with no contract of its own. `MatchValueIsTokenValue` states that it is the token's decimal reading. |
| PressureParser.ReplaceCommas | main.py:10 | Same length, with every `,` replaced by `.` and every other character kept. |
| PressureParser.FractionBelowOne | main.py:12 | The digits after the point contribute a fraction in [0, 1). |
| PressureParser.ParseTextOfIntText | main.py:10-12 | The decimal text of any integer converts back to that integer. |
| PressureParser.NonNegativeWithoutAdjacentMinus | main.py:10 | A string with no `-` directly before a digit never converts to a negative value. |
| PressureParser.DecimalCommaExample | main.py:10-12 | `"3,5 kPa"` gives 3.5. |
| PressureParser.SecondPointEndsNumberExample | main.py:10-12 | `"1.2.3"` gives 1.2. |
| PressureParser.DetachedDashesExample | main.py:10-12 | `"-- 3,5 kPa --"` gives +3.5. |
| PressureParser.NegativeReadingExample | main.py:10-12 | `"vacuo -7,25"` gives -7.25. |
| PressureParser.NoDigitExample | main.py:11-17 | `"N/A"` gives None. |
| RackAnalysis.TimestampedSamples | main.py:21 | Keeps every stamped row and no other, as samples. It is empty exactly when no row has a timestamp. |
| RackAnalysis.SortByTime | main.py:28 | The result is sorted by time and is a permutation of the input. |
| RackAnalysis.InsertByTime | main.py:28 | Inserting into a sorted sequence keeps it sorted and adds exactly that row. |
| RackAnalysis.InsertionPoint | main.py:28 | Every row before the returned position is no later than the new row, and every row from it on is later. |
| RackAnalysis.FirstOccurrences | main.py:29 | The result keeps only input rows, covers every input timestamp, and has no timestamp twice. Which row survives is stated by `FirstOccurrencesKeepsFirst`. |
| RackAnalysis.FirstOccurrencesKeepsFirst | main.py:29 | `keep="first"`, in both directions. A row no earlier row shares a timestamp with is kept, and every kept row is such a row. |
| RackAnalysis.FirstOccurrencesOfSorted | main.py:28-29 | Deduplicating a sorted sequence gives strictly increasing times: one original row per distinct timestamp. |
| RackAnalysis.NormalizeStep | main.py:28-29 | Sort-then-dedup of any permutation of the rows is a normalization of them. |
| RackAnalysis.NormalizeIdempotent | main.py:27-29 | Sorting and deduplicating an already normalized frame returns it unchanged. Repeating the step per column changes nothing. |
| RackAnalysis.NormalizationOfIncreasing | main.py:28-29 | A frame whose times already strictly increase is its own only normalization. |
| RackAnalysis.NormalizationUnique | main.py:28-29 | Without two different rows sharing a timestamp, the normalization is unique. |
| RackAnalysis.NormalizationTransitive | main.py:27-29 | A normalization of a normalization is a normalization of the original frame. |
| RackAnalysis.DuplicateRowChangesNothing | main.py:29 | Adding a copy of an existing row does not change the possible outcomes. |
| RackAnalysis.StrictlyIncreasingUnique | main.py:29 | Two strictly increasing sequences with the same rows are equal. |
| RackAnalysis.NormalizeFrame | main.py:27-32 | The loop at line 27 leaves a normalization of the frame and its `diff_min` column. A table without value columns is left untouched. |
| RackAnalysis.Durations | main.py:31-32 | One duration per row. The first is 1 minute, and every later one is the gap in minutes since the row before it. Positivity and the total are stated by `DurationsPositive` and `DurationsTelescope`. |
| RackAnalysis.GapMinutes | main.py:31 | The gap in minutes times 60, added to the earlier timestamp, gives the later one. |
| RackAnalysis.DurationsPositive | main.py:31-32 | After dedup every row's duration is positive. |
| RackAnalysis.DurationsTelescope | main.py:31-32 | The durations add up to one minute plus the span from the first to the last timestamp. |
| RackAnalysis.Classify | main.py:36-37 | Downtime exactly for a reading below -5, uptime exactly for a reading of -5 or more, and neither exactly when there is no reading. |
| RackAnalysis.ParseColumn | main.py:35 | The converted column has one entry per row, and entry `i` is the conversion of row `i`'s cell in that column. |
| RackAnalysis.SumWhere | main.py:39-40 | When no row is in the state, the sum is 0. The partition of all minutes and positivity are stated by `StatesPartitionTime` and `SumWherePositive`. |
| RackAnalysis.Percent | main.py:45-46 | With a non-zero total, the percentage times the total is 100 times the part. With a zero total it is 0. |
| RackAnalysis.ThresholdBoundary | main.py:36-37 | Below -5 is downtime and -5 or more is uptime. Exactly -5 is uptime, and a missing reading is in neither state. |
| RackAnalysis.StatesPartitionTime | main.py:36-40 | Every row's minutes go to exactly one of up, down and no reading. |
| RackAnalysis.SumWherePositive | main.py:39-40 | A sum of positive durations is non-negative. It is positive exactly when some row is in that state. |
| RackAnalysis.GapGoesToCurrentRow | main.py:31-40 | Take a row appended after a frame. The gap in minutes since the frame's last row is added to the sum of the appended row's own reading's state. The other states' sums are unchanged. |
| RackAnalysis.SingleRowCountsOneMinute | main.py:32-40 | A single-row frame counts one minute, in the state of its one reading. |
| RackAnalysis.PercentagesSum | main.py:41-46 | With a positive total the two percentages add to 100. With a zero total both are 0. Each lies in [0, 100]. |
| RackAnalysis.RecordPercentages | main.py:41-48 | The same for a record built from two non-negative minute counts. |
| RackAnalysis.ColumnMinutesConserved | main.py:39-41 | Uptime and downtime are non-negative. Together with the no-reading minutes they make up all the frame's minutes. |
| RackAnalysis.ColumnTimeIffReading | main.py:35-41 | A column has counted time exactly when one of its cells converts to a number. |
| RackAnalysis.CountedTimeIffReading | main.py:36-41 | With positive durations, up plus down is positive exactly when some reading is present. |
| RackAnalysis.ColumnPercentages | main.py:41-46 | For every column of a normalized frame, the percentage laws hold. |
| RackAnalysis.ColumnRecord | main.py:41-48 | The record built from two minute counts, with no contract of its own. `RecordPercentages` states its percentage laws. |
| RackAnalysis.ColumnResultOf | main.py:35-48 | The record of one value column, with no contract of its own. `ColumnRecordLaws`, `ColumnMinutesConserved` and `ColumnTimeIffReading` state its properties. |
| RackAnalysis.ColumnRecordFor | main.py:35-48 | Converting one column, summing its minutes per state and building the record gives exactly that column's record. |
| RackAnalysis.ColumnResults | main.py:34-49 | Exactly one record per value column. The time column is excluded, and so is the helper column. |
| RackAnalysis.ColumnResultsAt | main.py:34-49 | Record `k` of the list is the record computed for value column `k`, with that column's label. |
| RackAnalysis.ColumnResultsElements | main.py:34-49 | The list is, record by record, the records of the value columns in column order. |
| RackAnalysis.ColumnRecordLaws | main.py:39-48 | Every column's record over a normalized frame has non-negative minutes. Its percentages add to 100 when there is counted time and are both 0 otherwise. Each lies in [0, 100]. |
| RackAnalysis.ColumnResultsLaws | main.py:34-49 | Every record in the list over a normalized frame satisfies those laws. |
| RackAnalysis.ColumnResultsRacks | main.py:34-44 | The records come in column order and carry the value columns' labels. |
| RackAnalysis.RecordColumns | main.py:34-50 | The loop appends exactly the records of the value columns, in order. |
| RackAnalysis.AnalyzeByRack | main.py:19-50 | There are four error cases, each stated as an if-and-only-if: more than five columns, no column, an unparseable time, and no timestamped row. On success there is one record per value column, in column order, with that column's label. Each record has non-negative minutes. Its percentages add to 100, or are both 0 when the column has no counted time. The record list is the one computed over some normalization of the timestamped rows. |
| RackExamples.WorkedExample | main.py:31-48 | Readings -10, -2, -10 at t0, t0+1 min and t0+6 min give 1 minute up and 6 minutes down, 100/7 % and 600/7 %. |
| RackExamples.ExampleDurations | main.py:31-32 | The worked example's durations are 1, 1 and 5 minutes. |
| RackExamples.ExampleReadings | main.py:35 | The worked example's column converts to -10, -2, -10. |
| RackExamples.WorkedExampleTable | main.py:21-49 | Take the same readings shuffled, with a repeated row and a row without a timestamp. Every normalization of them gives the same record. |
| RackExamples.ExampleTableOnlyNormalization | main.py:21-29 | The shuffled table has exactly one normalization: the ordered three rows. |
| RackExamples.EarlierDuplicateWins | main.py:29 | Of two rows with the same timestamp, deduplication keeps the earlier one, whatever the readings. |
| RackExamples.EarlierDuplicateWinsExample | main.py:29 | A -10 row followed by a -2 row at the same time leaves only the -10 row. |
| RackExamples.ShuffledThreeNormalizes | main.py:28-29 | Three rows given out of order, with one repeated, normalize to the ordered three. |

## Left out

- I/O and presentation: the file dialog, `pd.read_excel`, the message boxes, the Tk window and the bar chart (main.py:52 onwards) are not part of this model.
- `pd.to_datetime` (line 22) is a library call over arbitrary date formats. A time cell arrives already classified as `Missing`, `Stamp(seconds)` or `Unparseable`, and an unparseable cell makes the whole table an error.
- `tempo_total_segundos` (line 25) is never used. Only its effect of failing on an empty frame is kept, as `NoTimestampedRows`.
- RackAnalysis.TimestampedSamples: states which rows are kept, not their order or how often a repeated row appears. What follows in the model depends only on which rows are present: a normalization is defined by membership and timestamps.
- Floating point: durations, sums and percentages are exact reals, with no IEEE-754 rounding.
- NaN readings are modelled as `None`. Both satisfy neither comparison at lines 36-37, so they count for neither state in the same way.
- `bool` counting as `int` at line 13, and Unicode digits matched by `\d` and accepted by `float()`, are not modelled. Only ASCII digits are recognised.
- RackAnalysis.SortByTime: promises a sorted permutation and nothing about the order of rows that share a timestamp. pandas' default sort is not stable. So `AnalyzeByRack` states its result for every normalization, which keeps one original row per timestamp.
- The frame is modelled as a value (`seq<Sample>`) that the methods reassign, not as a mutable pandas object. `diff_min` is a separate sequence, not an extra column. A value column that is itself labelled `diff_min` is therefore not modelled.
- Duplicate column labels are kept apart by position rather than by name.
