# Usage formatter, modelled in Dafny

This project models the core of Cucumber's usage formatter. The formatter reads the messages
of a test run and collects the finished test steps under the step definitions they matched.
It then reports, per step definition, the total, mean and 95% margin of error of the step
durations, together with the steps themselves. The report can be rendered as a plain-text table
or as a list of unused step definitions.

What is modelled, module by module:

- `Messages`, `UsageReport` hold the data. `Messages` has the message types the formatter reads:
  durations, locations, step definitions and source references. `UsageReport` has the report's
  records and their null-checking constructors. `Duration` is seconds plus nanoseconds.
  `Valid()` asks for the nanoseconds to lie in [0, 10^9), as `java.time.Duration` keeps them.
- `Decimals`, `Durations` model `Durations.java`, computed on exact `BigDecimal` values with
  a scale.
  - The sum and the mean come from `Duration.plus` and `Duration.dividedBy`. The division
    truncates toward zero.
  - The variance is a sum of squared deviations at scale 18.
  - The margin of error is 2·sqrt(variance)/n, rounded down to whole nanoseconds.
  - `DurationsTest.java`'s two test vectors are proved as lemmas.
- `SourceReferenceFormatter` is the choice between a Java method, a stack-trace element and a URI.
- `LinkedGroups`, `UsageReportBuilder` model the builder.
  - `groupingBy` into a `LinkedHashMap`, `computeIfAbsent` and the key order of the map become
    functions on sequences, with the order of the keys proved.
  - `build()` is a method that runs that grouping. It is proved to produce one entry per
    definition: first the definitions some finished step matched, in first-use order, then
    the unused ones in declaration order.
- `StableSort` models `sorted(...reversed())`. It is a stable insertion sort on a rank, proved
  to be a permutation, descending, and stable. `Rank.Lowest` stands for a missing statistics
  value.
- `Tables` and `TableFormatter` model `Table.java` and `TableFormatter.java`. `Table` is a class
  with a `rows` field. The formatter's loops are methods proved against `Render`. Lemmas state
  the layout: every cell padded to its column, every line the same length, the text framed by
  line separators.
- `ReportRows` holds the row shapes that the serializers share. A definition's rows are
  `DefinitionRows`: its own row, then with INCLUDE_STEPS either "UNUSED" or its sorted steps
  up to the limit and a "k more" row. Each serializer's `RowsOf` is an instance of it, so the
  generic lemmas about the rows apply to every serializer.
- `UsageReportSerializer`, `UsageReportPlainTextSerializer`, `PlainTextSerializer` and
  `UnusedReportSerializer` model the four serializers. The first works on the `UsageReport.java`
  records: matches, a source reference and a step URI with a location. The other three, like
  the builder, work on records whose expression and locations are already strings
  (`FlatReport`, `FlatDefinitionUsage`, `FlatStepUsage`), which is the API they call.
  `PlainTextSerializer` is proved to be the plain-text table serializer fixed to INCLUDE_STEPS
  and a limit of 5.
- `MessagesToUsageWriter` models the writer.
  - The message repository is the sequence of messages received, and the query is a function
    of it.
  - The output stream is a string plus a closed flag.
  - `Writer` and `Builder` are classes. `Close` builds the report, serializes it once and closes
    the stream, even when the serializer fails.
  - The test class's scenarios are proved: writing after close fails, closing twice succeeds,
    and a run without step definitions writes nothing.

Two behaviours of the code worth knowing:

- Step definitions without statistics sort last: `nullsFirst(...)` followed by `reversed()`
  puts them last.
- `UnusedReportSerializer` prints a count line and one "location # expression" line per unused
  definition, not a table.

## Model

| member | source | states |
|---|---|---|
| Decimals.Add | java/src/main/java/io/cucumber/usageformatter/Durations.java:46-51 | `BigDecimal.add` keeps the larger scale; with AddSubtractExact, its value is the exact sum |
| Decimals.Subtract | java/src/main/java/io/cucumber/usageformatter/Durations.java:49 | `BigDecimal.subtract` keeps the larger scale; with AddSubtractExact, its value is the exact difference |
| Decimals.AddSubtractExact | java/src/main/java/io/cucumber/usageformatter/Durations.java:46-51 | adding and subtracting decimals loses no digit: the values add and subtract exactly |
| Decimals.Square | java/src/main/java/io/cucumber/usageformatter/Durations.java:49 | `pow(2)` doubles the scale |
| Decimals.SquareExact | java/src/main/java/io/cucumber/usageformatter/Durations.java:49 | squaring is exact: the value of the square is the square of the value |
| Decimals.SetScaleHalfEven | java/src/main/java/io/cucumber/usageformatter/UsageReportPlainTextSerializer.java:132-134 | `setScale(newScale, HALF_EVEN)` gives the nearest value at the new scale, the even one on a tie |
| Decimals.ToPlainStringRoundTrip | java/src/main/java/io/cucumber/usageformatter/UsageReportPlainTextSerializer.java:132-134 | `toPlainString` reads back as the same unscaled value at the same scale |
| Durations.OfNanos | java/src/main/java/io/cucumber/usageformatter/Durations.java:24-28 | a nanosecond count gives the one normalised duration (nanos in [0, 10^9)) with that count |
| Durations.OfNanosTotal | java/src/main/java/io/cucumber/usageformatter/Durations.java:24-28 | a normalised duration is determined by its nanosecond count |
| Durations.Plus | java/src/main/java/io/cucumber/usageformatter/Durations.java:24-27 | `Duration.plus` is exact and normalised |
| Durations.Reduce | java/src/main/java/io/cucumber/usageformatter/Durations.java:24-27 | the reduce is absent exactly for no durations; otherwise it is the exact total, normalised |
| Durations.TruncDiv | java/src/main/java/io/cucumber/usageformatter/Durations.java:28 | division truncates toward zero for both signs |
| Durations.DividedBy | java/src/main/java/io/cucumber/usageformatter/Durations.java:28 | `dividedBy(n)` is the nanosecond total divided by n, truncated toward zero, normalised |
| Durations.ToBigDecimalSeconds | java/src/main/java/io/cucumber/usageformatter/Durations.java:60-66 | the seconds as a decimal of scale 9 whose unscaled value is the nanosecond total |
| Durations.SquaredDeviations | java/src/main/java/io/cucumber/usageformatter/Durations.java:46-49 | one squared deviation per duration |
| Durations.ReduceAdd | java/src/main/java/io/cucumber/usageformatter/Durations.java:50-51 | the sum of the decimals is absent exactly when there are none |
| Durations.VarianceExact | java/src/main/java/io/cucumber/usageformatter/Durations.java:46-51 | the variance is, at scale 18, exactly the sum of squared nanosecond deviations from the truncated mean |
| Durations.ISqrt | java/src/main/java/io/cucumber/usageformatter/Durations.java:53 | the integer square root: r*r <= x < (r+1)*(r+1) |
| Durations.ISqrtUnique | java/src/main/java/io/cucumber/usageformatter/Durations.java:53 | only one integer brackets x between consecutive squares |
| Durations.RootQuotient | java/src/main/java/io/cucumber/usageformatter/Durations.java:53 | ISqrt(x)/n is sqrt(x)/n cut to an integer |
| Durations.RootQuotientUnique | java/src/main/java/io/cucumber/usageformatter/Durations.java:53-57 | that cut value is unique, so the margin of error is determined by the variance and count |
| Durations.MarginOfError95 | java/src/main/java/io/cucumber/usageformatter/Durations.java:45-58 | the margin is normalised and its nanosecond count is 2·sqrt(variance)/n cut down to a whole number, with the variance in nanoseconds squared |
| Durations.CreateStatistics | java/src/main/java/io/cucumber/usageformatter/Durations.java:19-35 | no statistics exactly for no durations; otherwise the exact sum (normalised when the durations are), the normalised mean truncated toward zero, and the margin of error around that mean, in that order |
| Durations.Millis | java/src/main/java/io/cucumber/usageformatter/UsageReportPlainTextSerializer.java:132-134 | the duration rounded to milliseconds, half to even |
| Durations.FormatDurationReadsBack | java/src/main/java/io/cucumber/usageformatter/UsageReportPlainTextSerializer.java:132-134 | a formatted duration ends in "s" and reads back as the rounded millisecond count |
| Durations.StatisticsOfEvenCount | java/src/test/java/io/cucumber/usageformatter/DurationsTest.java:32-45 | 1s, 1s, 2s, 4s give sum 8s, mean 2s and margin 1.224744871s |
| Durations.StatisticsOfOddCount | java/src/test/java/io/cucumber/usageformatter/DurationsTest.java:47-59 | 1s, 2s, 4s give sum 7s, mean 2.333333333s and margin 1.440164599s |
| UsageReport.NewUsageReport | java/src/main/java/io/cucumber/usageformatter/UsageReport.java:17-19 | rejects a missing list and otherwise keeps exactly the list given |
| UsageReport.NewStepDefinitionUsage | java/src/main/java/io/cucumber/usageformatter/UsageReport.java:35-42 | rejects a missing pattern, source reference or match list, accepts missing statistics, and stores every field as given |
| UsageReport.NewStepUsage | java/src/main/java/io/cucumber/usageformatter/UsageReport.java:100-105 | rejects missing text, duration or URI, keeps an absent location absent, and stores every field as given |
| SourceReferenceFormatter.LineSuffix | java/src/main/java/io/cucumber/usageformatter/SourceReferenceFormatter.java:34-36 | "" without a location; otherwise ":" followed by a number that reads back as the line |
| SourceReferenceFormatter.Format | java/src/main/java/io/cucumber/usageformatter/SourceReferenceFormatter.java:16-39 | empty exactly when no Java method, stack-trace element or URI is present; otherwise the first present of them, in that priority, rendered |
| SourceReferenceFormatter.JavaMethodWins | java/src/main/java/io/cucumber/usageformatter/SourceReferenceFormatter.java:17-23 | with a Java method, the URI, stack-trace element, location and URI formatter change nothing |
| SourceReferenceFormatter.UriFormatterOnlyForUri | java/src/main/java/io/cucumber/usageformatter/SourceReferenceFormatter.java:17-31 | the URI formatter matters only in the URI branch |
| SourceReferenceFormatter.UriBranch | java/src/main/java/io/cucumber/usageformatter/SourceReferenceFormatter.java:32-37 | the URI branch starts with the formatted URI and adds nothing exactly when the location is absent |
| LinkedGroups.Dedup | java/src/main/java/io/cucumber/usageformatter/UsageReportBuilder.java:36-46 | the keys of a `LinkedHashMap`: distinct, and exactly the elements given |
| LinkedGroups.DedupDistinct | java/src/main/java/io/cucumber/usageformatter/UsageReportBuilder.java:36-40 | a distinct sequence is its own key order |
| LinkedGroups.DedupAppendPrefix | java/src/main/java/io/cucumber/usageformatter/UsageReportBuilder.java:43-46 | keys added later never reorder the keys already present |
| LinkedGroups.DedupDedupAppend | java/src/main/java/io/cucumber/usageformatter/UsageReportBuilder.java:43-46 | adding keys to a map whose keys are already deduplicated equals deduplicating all of them at once |
| LinkedGroups.Select | java/src/main/java/io/cucumber/usageformatter/UsageReportBuilder.java:39-40 | at most one value per pair |
| LinkedGroups.Keys | java/src/main/java/io/cucumber/usageformatter/UsageReportBuilder.java:39 | the classifier applied to each pair, in order |
| LinkedGroups.SelectAbsent | java/src/main/java/io/cucumber/usageformatter/UsageReportBuilder.java:43-46 | a key no pair carries gets an empty list |
| LinkedGroups.SelectPresent | java/src/main/java/io/cucumber/usageformatter/UsageReportBuilder.java:36-40 | a key some pair carries gets a non-empty list |
| LinkedGroups.ComputeIfAbsent | java/src/main/java/io/cucumber/usageformatter/UsageReportBuilder.java:45-46 | a present key is left as it is; an absent one is appended with an empty list |
| LinkedGroups.GroupByGroups | java/src/main/java/io/cucumber/usageformatter/UsageReportBuilder.java:36-40 | `groupingBy` into a `LinkedHashMap` lists keys in first-seen order, each with its values in input order |
| LinkedGroups.ComputeIfAbsentGroups | java/src/main/java/io/cucumber/usageformatter/UsageReportBuilder.java:43-46 | `computeIfAbsent` of a key keeps that grouping, with the key joining the seen keys |
| UsageReportBuilder.FindLocationOf | java/src/main/java/io/cucumber/usageformatter/UsageReportBuilder.java:97-104 | "" without a pickle; otherwise the formatted URI, with a suffix exactly when the pickle has a location |
| UsageReportBuilder.CreateStepDefinitionUsage | java/src/main/java/io/cucumber/usageformatter/UsageReportBuilder.java:58-80 | the pattern source, the formatted source reference or "", statistics absent exactly for no steps and summing their durations, and the steps as given |
| UsageReportBuilder.Somes | java/src/main/java/io/cucumber/usageformatter/UsageReportBuilder.java:48-52 | no more entries than keys; SomesMembership says which are kept |
| UsageReportBuilder.SomesMembership | java/src/main/java/io/cucumber/usageformatter/UsageReportBuilder.java:52 | a definition is kept exactly when it occurs as a present key |
| UsageReportBuilder.SomesDedup | java/src/main/java/io/cucumber/usageformatter/UsageReportBuilder.java:48-54 | filtering the absent key out of the distinct keys gives the distinct definitions |
| UsageReportBuilder.SomesPresent | java/src/main/java/io/cucumber/usageformatter/UsageReportBuilder.java:43-44 | unwrapping the wrapped catalog gives the catalog back |
| UsageReportBuilder.Entries | java/src/main/java/io/cucumber/usageformatter/UsageReportBuilder.java:48-54 | one report entry per present key |
| UsageReportBuilder.Build | java/src/main/java/io/cucumber/usageformatter/UsageReportBuilder.java:35-56 | one entry per definition: those finished steps resolved to, in first-seen order, then the unused catalog definitions (wrapped as keys by the helper `Present`) in catalog order; each entry has exactly the usages of the steps resolved to it, and statistics over their durations (the helper `StepDurations`) |
| UsageReportBuilder.AddUnusedStep | java/src/main/java/io/cucumber/usageformatter/UsageReportBuilder.java:43-46 | one turn of the catalog loop keeps the grouping |
| UsageReportBuilder.BuildResult | java/src/main/java/io/cucumber/usageformatter/UsageReportBuilder.java:48-55 | the entries of the final grouping are the report promised by Build |
| UsageReportBuilder.KeysOrder | java/src/main/java/io/cucumber/usageformatter/UsageReportBuilder.java:36-46 | the present keys of the grouping are the resolved definitions, then the catalog, deduplicated |
| UsageReportBuilder.EntriesMeaning | java/src/main/java/io/cucumber/usageformatter/UsageReportBuilder.java:48-54 | entry i is created from the i-th present key and the usages grouped under it; the usages are the finished steps turned into text, duration and location by the helper `CreateStepUsage` (empty text, zero duration and "" when the pickle step is missing) and paired with their keys by `Pairs` |
| UsageReportBuilder.MatchedDefinitionsFirst | java/src/main/java/io/cucumber/usageformatter/UsageReportBuilder.java:36-46 | matched definitions come first in first-use order; every later entry is an unmatched catalog definition |
| UsageReportBuilder.StepsOfEmpty | java/src/main/java/io/cucumber/usageformatter/UsageReportBuilder.java:58-80 | a definition has no usages, and so no statistics, exactly when no finished step resolved to it |
| UsageReportBuilder.CatalogCovered | java/src/main/java/io/cucumber/usageformatter/UsageReportBuilder.java:43-46 | a definition gets an entry exactly when it is in the catalog or some step resolved to it |
| UsageReportBuilder.ResolvedMembers | java/src/main/java/io/cucumber/usageformatter/UsageReportBuilder.java:106-109 | the resolved definitions are exactly those some finished step resolved to |
| Tables.RectangularCons | java/src/main/java/io/cucumber/usageformatter/Table.java:30-33 | a row of the right width on top of rectangular rows keeps the table rectangular |
| Tables.Table.constructor | java/src/main/java/io/cucumber/usageformatter/Table.java:10-11 | a new table has no rows |
| Tables.Table.WithHeaders | java/src/main/java/io/cucumber/usageformatter/Table.java:13-15 | a table made with headers has exactly the header row |
| Tables.Table.Add | java/src/main/java/io/cucumber/usageformatter/Table.java:17-19 | `add` appends one row and leaves the earlier rows unchanged |
| Tables.Table.AddAll | java/src/main/java/io/cucumber/usageformatter/Table.java:22-24 | `addAll` appends the rows in order |
| Tables.Table.Width | java/src/main/java/io/cucumber/usageformatter/Table.java:30-33 | the width is the length of the first row; in a rectangular table it is every row's length, and the only such width |
| Tables.Table.AddTo | java/src/main/java/io/cucumber/usageformatter/Table.java:35-38 | returns `a` with the rows of `b` appended; `b` is unchanged unless it is `a` |
| Strings.Spaces | java/src/main/java/io/cucumber/usageformatter/TableFormatter.java:52-56 | n spaces, none for a negative n |
| Strings.JoinLength | java/src/main/java/io/cucumber/usageformatter/TableFormatter.java:10 | joining n parts adds exactly n - 1 separators |
| Strings.JoinSnoc | java/src/main/java/io/cucumber/usageformatter/TableFormatter.java:10 | joining one more part appends the separator and that part |
| Strings.JoinFirst | java/src/main/java/io/cucumber/usageformatter/TableFormatter.java:10 | the joined text starts with the first part |
| Strings.NatToString | java/src/main/java/io/cucumber/usageformatter/UnusedReportSerializer.java:25 | decimal digits, at least one, with no leading zero |
| Strings.ParseNatToString | java/src/main/java/io/cucumber/usageformatter/UnusedReportSerializer.java:25 | the digits read back as the number |
| Strings.IntToString | java/src/main/java/io/cucumber/usageformatter/UsageReportBuilder.java:101 | a minus sign exactly for negative values, then the digits |
| Strings.IntToStringRoundTrip | java/src/main/java/io/cucumber/usageformatter/UsageReportBuilder.java:101 | the rendering reads back as the number |
| Strings.RemovePrefix | java/src/main/java/io/cucumber/usageformatter/MessagesToUsageWriter.java:63-71 | strips the prefix exactly when the string starts with it, and returns the string unchanged otherwise |
| TableFormatter.ColumnWidth | java/src/main/java/io/cucumber/usageformatter/TableFormatter.java:27-38 | at least every cell of the column, and equal to one of them (0 for no rows) |
| TableFormatter.PadCell | java/src/main/java/io/cucumber/usageformatter/TableFormatter.java:40-50 | the cell, padded with spaces to the width, on the right when left-aligned and on the left otherwise; longer cells are kept whole |
| TableFormatter.FindLongestCellLengthInColumn | java/src/main/java/io/cucumber/usageformatter/TableFormatter.java:27-38 | the array holds each column's longest cell |
| TableFormatter.KeepLongest | java/src/main/java/io/cucumber/usageformatter/TableFormatter.java:31-35 | each column keeps the larger of its current length and the row's cell |
| TableFormatter.ColumnWidthSnoc | java/src/main/java/io/cucumber/usageformatter/TableFormatter.java:31-35 | one more row widens a column only to that row's longer cell |
| TableFormatter.PadSpace | java/src/main/java/io/cucumber/usageformatter/TableFormatter.java:52-56 | appends exactly max(padding, 0) spaces and keeps what was there |
| TableFormatter.RenderCellWithPadding | java/src/main/java/io/cucumber/usageformatter/TableFormatter.java:40-50 | the padded cell described by PadCell |
| TableFormatter.FormatRows | java/src/main/java/io/cucumber/usageformatter/TableFormatter.java:9-25 | the rendered table: every row padded per column and joined by spaces, all rows joined and framed by the line separator |
| TableFormatter.FormatRow | java/src/main/java/io/cucumber/usageformatter/TableFormatter.java:13-22 | one row's padded cells joined by single spaces |
| TableFormatter.JoinStep | java/src/main/java/io/cucumber/usageformatter/TableFormatter.java:10 | one `StringJoiner.add`: the first part alone, each later one after a separator |
| TableFormatter.Format | java/src/main/java/io/cucumber/usageformatter/TableFormatter.java:9-25 | `format` of a table is the rendering of its rows |
| TableFormatter.PaddedLength | java/src/main/java/io/cucumber/usageformatter/TableFormatter.java:40-56 | cells that fit their columns pad to exactly the column widths |
| TableFormatter.CellsFillColumns | java/src/main/java/io/cucumber/usageformatter/TableFormatter.java:40-50 | every rendered cell (the helper `PaddedCells`) is exactly as wide as its column, whose width (the helper `ColumnWidths`) is the longest cell of that column |
| TableFormatter.RowsEqualLength | java/src/main/java/io/cucumber/usageformatter/TableFormatter.java:13-23 | all rendered lines (the helper `RenderedRows`) have the same length: the column widths plus one space between columns |
| TableFormatter.RenderFramed | java/src/main/java/io/cucumber/usageformatter/TableFormatter.java:10 | the text starts and ends with the line separator and holds one line per row |
| TableFormatter.RenderShowsFirstCell | java/src/main/java/io/cucumber/usageformatter/TableFormatter.java:9-25 | the text opens with the line separator and the first header cell, so a non-empty table never renders as "" |
| StableSort.Filter | java/src/main/java/io/cucumber/usageformatter/UsageReportPlainTextSerializer.java:57 | no longer than its input |
| StableSort.Insert | java/src/main/java/io/cucumber/usageformatter/UsageReportPlainTextSerializer.java:57 | inserting adds one element |
| StableSort.Sort | java/src/main/java/io/cucumber/usageformatter/UsageReportPlainTextSerializer.java:57 | the sort keeps the length |
| StableSort.InsertFacts | java/src/main/java/io/cucumber/usageformatter/UsageReportPlainTextSerializer.java:57 | inserting into a descending sequence adds exactly that element and keeps it descending |
| StableSort.SortCorrect | java/src/main/java/io/cucumber/usageformatter/UsageReportPlainTextSerializer.java:57 | `sorted(comparator.reversed())` is a permutation into descending key order that keeps input order among equal keys |
| StableSort.SortUnique | java/src/main/java/io/cucumber/usageformatter/UsageReportPlainTextSerializer.java:57 | any stable descending permutation is that sort |
| StableSort.DescendingDeterminedByFilters | java/src/main/java/io/cucumber/usageformatter/UsageReportPlainTextSerializer.java:57 | two descending sequences with the same elements per key are equal |
| ReportRows.DefinitionRow | java/src/main/java/io/cucumber/usageformatter/UsageReportPlainTextSerializer.java:59-67 | six cells: expression, location, and the three statistics with "±", all blank exactly when there are no statistics |
| ReportRows.DefinitionRowReadsBack | java/src/main/java/io/cucumber/usageformatter/UsageReportPlainTextSerializer.java:62-65 | with statistics, the cells show "±" and the sum, mean and margin as rounded millisecond counts |
| ReportRows.StepRow | java/src/main/java/io/cucumber/usageformatter/UsageReportPlainTextSerializer.java:84-92 | six cells: the text indented by two spaces, the duration, three blanks, the location |
| ReportRows.StepRowReadsBack | java/src/main/java/io/cucumber/usageformatter/UsageReportPlainTextSerializer.java:87 | the duration cell shows the step's rounded millisecond count |
| ReportRows.MoreRow | java/src/main/java/io/cucumber/usageformatter/UsageReportPlainTextSerializer.java:94-101 | six cells, all blank but the first |
| ReportRows.MoreRowReadsBack | java/src/main/java/io/cucumber/usageformatter/UsageReportPlainTextSerializer.java:95 | the first cell is two spaces, a number that reads back as k, and " more" |
| ReportRows.MeanRank | java/src/main/java/io/cucumber/usageformatter/UsageReportPlainTextSerializer.java:128-130 | the sort key is absent exactly for definitions without statistics |
| ReportRows.DurationOrder | java/src/main/java/io/cucumber/usageformatter/UsageReportPlainTextSerializer.java:82 | comparing durations by seconds then nanos is comparing their nanosecond totals |
| ReportRows.NullsLast | java/src/main/java/io/cucumber/usageformatter/UsageReportPlainTextSerializer.java:128-130 | in the sorted definitions, everything after one without statistics is also without statistics |
| ReportRows.StepSectionUsed | java/src/main/java/io/cucumber/usageformatter/UsageReportPlainTextSerializer.java:80-103 | a used definition's section is the rows of its first `shown` sorted steps, then the "k more" row if any |
| ReportRows.StepSectionShape | java/src/main/java/io/cucumber/usageformatter/UsageReportPlainTextSerializer.java:71-103 | "UNUSED" alone for no steps; otherwise one row per shown step in sorted order (the helper `RowsFor`), and the "k more" row, with k the number left out, exactly when steps are left out |
| ReportRows.StepSectionWidth | java/src/main/java/io/cucumber/usageformatter/UsageReportPlainTextSerializer.java:71-103 | every row of the section has one cell per header |
| ReportRows.DefinitionRowsShape | java/src/main/java/io/cucumber/usageformatter/UsageReportPlainTextSerializer.java:58-104 | the definition's row first; alone without INCLUDE_STEPS; then "UNUSED" for no steps, or one row per shown step in sorted order plus one row exactly when steps are left out |
| ReportRows.DefinitionRowsMore | java/src/main/java/io/cucumber/usageformatter/UsageReportPlainTextSerializer.java:93-102 | that last row is "k more" with k = size - shown |
| ReportRows.DefinitionRowsWidth | java/src/main/java/io/cucumber/usageformatter/UsageReportPlainTextSerializer.java:58-104 | every row of a definition has one cell per header |
| ReportRows.Limit | java/src/main/java/io/cucumber/usageformatter/UsageReportPlainTextSerializer.java:83 | `limit(max)` lets through min(max, size) steps |
| ReportRows.LimitedRows | java/src/main/java/io/cucumber/usageformatter/UsageReportPlainTextSerializer.java:81-102 | under `limit(max)` a used definition shows min(max, size) steps and a "more" row exactly when size > max |
| ReportRows.LimitedMoreRow | java/src/main/java/io/cucumber/usageformatter/UsageReportPlainTextSerializer.java:93-102 | that row counts the size - max steps left out |
| ReportRows.LimitZeroRows | java/src/main/java/io/cucumber/usageformatter/UsageReportPlainTextSerializer.java:170 | with the builder's default limit of 0, a used definition shows no step, only "size more" |
| ReportRows.ShownAreLongest | java/src/main/java/io/cucumber/usageformatter/UsageReportPlainTextSerializer.java:81-83 | the sort only reorders the steps, and no step left out ranks above a step shown |
| ReportRows.FlattenRectangular | java/src/main/java/io/cucumber/usageformatter/UsageReportPlainTextSerializer.java:136-138 | rows of one width, concatenated, keep that width, so the table is square as the width search assumes |
| ReportRows.FlattenCount | java/src/main/java/io/cucumber/usageformatter/UsageReportPlainTextSerializer.java:55-106 | the table body has as many rows as the definitions contribute together, whatever each one contributes |
| ReportRows.FlattenLength | java/src/main/java/io/cucumber/usageformatter/UsageReportPlainTextSerializer.java:55-58 | when every definition contributes the same number of rows, the row count is that number times the number of definitions |
| UsageReportPlainTextSerializer.TableRowsShape | java/src/main/java/io/cucumber/usageformatter/UsageReportPlainTextSerializer.java:51-53 | the header row first, and every row has one cell per header |
| UsageReportPlainTextSerializer.RowsOfShape | java/src/main/java/io/cucumber/usageformatter/UsageReportPlainTextSerializer.java:58-104 | every row one definition adds has one cell per header |
| UsageReportPlainTextSerializer.Serialize | java/src/main/java/io/cucumber/usageformatter/UsageReportPlainTextSerializer.java:43-49 | "" exactly for a report without step definitions |
| UsageReportPlainTextSerializer.Format | java/src/main/java/io/cucumber/usageformatter/UsageReportPlainTextSerializer.java:43-49 | `format` is Serialize: "" for an empty report, otherwise the rendered table |
| UsageReportPlainTextSerializer.FormatTable | java/src/main/java/io/cucumber/usageformatter/UsageReportPlainTextSerializer.java:110-126 | the column-aligned rendering with this serializer's alignment |
| UsageReportPlainTextSerializer.CreateTable | java/src/main/java/io/cucumber/usageformatter/UsageReportPlainTextSerializer.java:51-108 | the headers, then each definition's rows in sorted order |
| UsageReportPlainTextSerializer.AddDefinition | java/src/main/java/io/cucumber/usageformatter/UsageReportPlainTextSerializer.java:58-105 | one turn of the `forEach` appends exactly that definition's rows |
| UsageReportPlainTextSerializer.AddSteps | java/src/main/java/io/cucumber/usageformatter/UsageReportPlainTextSerializer.java:80-103 | a used definition's steps: the sorted steps up to the limit, then the "more" row |
| UsageReportPlainTextSerializer.AddRows | java/src/main/java/io/cucumber/usageformatter/UsageReportPlainTextSerializer.java:84-92 | the `forEach` appends one row per element, in order |
| UsageReportPlainTextSerializer.DefinitionOrder | java/src/main/java/io/cucumber/usageformatter/UsageReportPlainTextSerializer.java:57 | definitions appear once each, by descending mean, ties in report order, those without statistics last |
| UsageReportPlainTextSerializer.OneRowPerDefinition | java/src/main/java/io/cucumber/usageformatter/UsageReportPlainTextSerializer.java:58-69 | without INCLUDE_STEPS the table has one row per definition under the headers |
| UsageReportPlainTextSerializer.StepRows | java/src/main/java/io/cucumber/usageformatter/UsageReportPlainTextSerializer.java:69-104 | with INCLUDE_STEPS: "UNUSED" for no steps; otherwise min(max, size) step rows and a "more" row exactly when size > max |
| UsageReportPlainTextSerializer.ShownStepRows | java/src/main/java/io/cucumber/usageformatter/UsageReportPlainTextSerializer.java:81-92 | the i-th step row is the i-th longest step's row |
| UsageReportPlainTextSerializer.LongestStepsShown | java/src/main/java/io/cucumber/usageformatter/UsageReportPlainTextSerializer.java:81-83 | no step left out took longer than a step shown, and the steps are only reordered |
| UsageReportPlainTextSerializer.Builder.constructor | java/src/main/java/io/cucumber/usageformatter/UsageReportPlainTextSerializer.java:168-170 | no features and a limit of 0 |
| UsageReportPlainTextSerializer.Builder.Feature | java/src/main/java/io/cucumber/usageformatter/UsageReportPlainTextSerializer.java:175-182 | switches one feature on or off and changes nothing else |
| UsageReportPlainTextSerializer.Builder.MaxStepsPerStepDefinition | java/src/main/java/io/cucumber/usageformatter/UsageReportPlainTextSerializer.java:189-192 | a negative limit becomes Integer.MAX_VALUE, others are kept |
| UsageReportPlainTextSerializer.Builder.Build | java/src/main/java/io/cucumber/usageformatter/UsageReportPlainTextSerializer.java:194-196 | the serializer holds the builder's limit and features |
| UsageReportSerializer.Shown | java/src/main/java/io/cucumber/usageformatter/UsageReportSerializer.java:101-102 | every step under INCLUDE_ALL_STEPS, else min(limit, size) |
| UsageReportSerializer.TableRowsShape | java/src/main/java/io/cucumber/usageformatter/UsageReportSerializer.java:61-67 | the header row first, and every row has one cell per header |
| UsageReportSerializer.RowsOfShape | java/src/main/java/io/cucumber/usageformatter/UsageReportSerializer.java:69-132 | every row `createRows` adds has one cell per header |
| UsageReportSerializer.Serialize | java/src/main/java/io/cucumber/usageformatter/UsageReportSerializer.java:52-59 | "" exactly for a report without step definitions |
| UsageReportSerializer.CreateRows | java/src/main/java/io/cucumber/usageformatter/UsageReportSerializer.java:69-132 | a fresh table holding exactly the definition's rows |
| UsageReportSerializer.AddStepSection | java/src/main/java/io/cucumber/usageformatter/UsageReportSerializer.java:87-131 | a used definition's sorted steps up to the limit, then the "more" row |
| UsageReportSerializer.AddStepRows | java/src/main/java/io/cucumber/usageformatter/UsageReportSerializer.java:104-118 | one row per step, in sorted order |
| UsageReportSerializer.CreateTable | java/src/main/java/io/cucumber/usageformatter/UsageReportSerializer.java:61-67 | a fresh table: the headers, then each definition's rows in sorted order |
| UsageReportSerializer.Format | java/src/main/java/io/cucumber/usageformatter/UsageReportSerializer.java:52-59 | `format` is Serialize |
| UsageReportSerializer.DefinitionOrder | java/src/main/java/io/cucumber/usageformatter/UsageReportSerializer.java:134-137 | definitions appear once each, by descending mean, ties in report order, those without statistics last |
| UsageReportSerializer.OneRowPerDefinition | java/src/main/java/io/cucumber/usageformatter/UsageReportSerializer.java:83-85 | without INCLUDE_STEPS one row per definition under the headers |
| UsageReportSerializer.StepRows | java/src/main/java/io/cucumber/usageformatter/UsageReportSerializer.java:87-131 | with INCLUDE_STEPS: "UNUSED" for no steps; otherwise one row per shown step in sorted order, then a row exactly when steps are left out |
| UsageReportSerializer.LongestStepsShown | java/src/main/java/io/cucumber/usageformatter/UsageReportSerializer.java:104-106 | no step left out took longer than a step shown, and the steps are only reordered |
| UsageReportSerializer.Builder.constructor | java/src/main/java/io/cucumber/usageformatter/UsageReportSerializer.java:144-147 | no features, every step, identity URI formatter |
| UsageReportSerializer.Builder.Feature | java/src/main/java/io/cucumber/usageformatter/UsageReportSerializer.java:152-159 | switches one feature on or off and changes nothing else |
| UsageReportSerializer.Builder.MaxStepsPerStepDefinition | java/src/main/java/io/cucumber/usageformatter/UsageReportSerializer.java:166-169 | a negative limit becomes INCLUDE_ALL_STEPS, others are kept |
| UsageReportSerializer.Builder.RemoveUriPrefix | java/src/main/java/io/cucumber/usageformatter/UsageReportSerializer.java:177-191 | URIs lose the prefix exactly when they start with it |
| UsageReportSerializer.Builder.Build | java/src/main/java/io/cucumber/usageformatter/UsageReportSerializer.java:193-195 | the serializer holds the builder's limit, features and URI formatter |
| PlainTextSerializer.Format | java/src/main/java/io/cucumber/usageformatter/PlainTextSerializer.java:37-113 | the configurable table with INCLUDE_STEPS and a limit of 5: "" exactly for an empty report |
| PlainTextSerializer.StepRowsOfFive | java/src/main/java/io/cucumber/usageformatter/PlainTextSerializer.java:62-93 | "UNUSED" for no steps; all steps up to five; five and a "more" row beyond five |
| UnusedReportSerializer.Unused | java/src/main/java/io/cucumber/usageformatter/UnusedReportSerializer.java:20-22 | no longer than the report; UnusedMembers and UnusedAppend say which definitions and in what order |
| UnusedReportSerializer.Lines | java/src/main/java/io/cucumber/usageformatter/UnusedReportSerializer.java:24-30 | a count line, then one line per unused definition |
| UnusedReportSerializer.Format | java/src/main/java/io/cucumber/usageformatter/UnusedReportSerializer.java:18-32 | the count line and each unused definition's "location # expression" line, joined and framed by the line separator |
| UnusedReportSerializer.FilterUnused | java/src/main/java/io/cucumber/usageformatter/UnusedReportSerializer.java:20-22 | the filter loop keeps exactly the unused definitions, in order |
| UnusedReportSerializer.UnusedMembers | java/src/main/java/io/cucumber/usageformatter/UnusedReportSerializer.java:20-22 | a definition is listed exactly when it is in the report and has no steps |
| UnusedReportSerializer.UnusedAppend | java/src/main/java/io/cucumber/usageformatter/UnusedReportSerializer.java:20-22 | the filter keeps report order across any split of the report |
| UnusedReportSerializer.AllUsed | java/src/main/java/io/cucumber/usageformatter/UnusedReportSerializer.java:20-22 | nothing is listed when every definition was used |
| UnusedReportSerializer.NothingUnused | java/src/main/java/io/cucumber/usageformatter/UnusedReportSerializer.java:24-25 | then the text is the line "0 unused step definition:" between line separators |
| UnusedReportSerializer.ListedLines | java/src/main/java/io/cucumber/usageformatter/UnusedReportSerializer.java:25-29 | line 0 counts the unused definitions; line 1 + i is the i-th one's location and expression |
| UnusedReportSerializer.HeaderReadsBack | java/src/main/java/io/cucumber/usageformatter/UnusedReportSerializer.java:25 | the count line reads back as the count |
| MessagesToUsageWriter.Definitions | java/src/main/java/io/cucumber/usageformatter/MessagesToUsageWriter.java:48 | the step definitions received, exactly those of the step-definition messages |
| MessagesToUsageWriter.FindDefinition | java/src/main/java/io/cucumber/usageformatter/UsageReportBuilder.java:106-109 | a definition with the id when one exists, none otherwise |
| MessagesToUsageWriter.Unambiguous | java/src/main/java/io/cucumber/usageformatter/UsageReportBuilder.java:106-109 | a definition only for a step naming exactly one id, and one whenever that id is declared |
| MessagesToUsageWriter.Finished | java/src/main/java/io/cucumber/usageformatter/MessagesToUsageWriter.java:97 | no more finished steps than messages, each resolved only to a declared definition |
| MessagesToUsageWriter.Writer.constructor | java/src/main/java/io/cucumber/usageformatter/MessagesToUsageWriter.java:36-42 | open, with nothing stored or written |
| MessagesToUsageWriter.Writer.Write | java/src/main/java/io/cucumber/usageformatter/MessagesToUsageWriter.java:44-49 | after close, fails with "Stream closed" and changes nothing; before, stores the message and writes nothing |
| MessagesToUsageWriter.Writer.Close | java/src/main/java/io/cucumber/usageformatter/MessagesToUsageWriter.java:91-106 | a no-op once closed; otherwise the report is built and serialized once, its text written, and the stream closed and marked closed even when the serializer fails, whose error is passed on |
| MessagesToUsageWriter.Builder.constructor | java/src/main/java/io/cucumber/usageformatter/MessagesToUsageWriter.java:55-61 | the URI formatter starts as the identity |
| MessagesToUsageWriter.Builder.RemoveUriPrefix | java/src/main/java/io/cucumber/usageformatter/MessagesToUsageWriter.java:63-83 | locations lose the prefix exactly when they start with it |
| MessagesToUsageWriter.Builder.Build | java/src/main/java/io/cucumber/usageformatter/MessagesToUsageWriter.java:85-88 | a fresh open writer with the builder's serializer and URI formatter |
| MessagesToUsageWriter.WriteAfterClose | java/src/test/java/io/cucumber/usageformatter/MessagesToUsageWriterTest.java:38-44 | writing after close fails with "Stream closed" |
| MessagesToUsageWriter.Run | java/src/test/java/io/cucumber/usageformatter/MessagesToUsageWriterTest.java:46-62 | writing every message and closing twice writes the serializer's text of the report once; the second close succeeds |
| MessagesToUsageWriter.OtherMessagesIgnored | java/src/main/java/io/cucumber/usageformatter/MessagesToUsageWriter.java:44-49 | messages of other kinds do not change the report |
| MessagesToUsageWriter.NoDefinitions | java/src/main/java/io/cucumber/usageformatter/MessagesToUsageWriter.java:48 | without step-definition messages there are no step definitions |
| MessagesToUsageWriter.EmptyRun | java/src/test/java/io/cucumber/usageformatter/MessagesToUsageWriterTest.java:20-36 | a run without step definitions has an empty report, and the table serializer writes "" |

## Left out

- Durations.MarginOfError95: the source computes the square root in `double` and takes the floor twice. The model uses the exact integer square root, so results can differ in the last nanosecond when a double rounds. Both test vectors agree with the exact value.
- Durations.Plus, Durations.Reduce and Durations.CreateStatistics: `Duration.plus` and `Duration.ofSeconds` throw `ArithmeticException` when the seconds overflow a `long`. The model's integers are unbounded, so it never fails there; for sums within `long` range the results agree.
- UsageReportPlainTextSerializer.Builder.Build and UsageReportSerializer.Builder.Build: the Java builders hand their own `features` set to the serializer they build, so a later `feature(...)` call on the builder also changes that serializer. The model's `Build` returns a configuration value, which later builder calls do not change.
- The message repository, `Query` and `Envelope` are abstracted.
  - A test step resolves to a definition when it names exactly one step-definition id that some received definition has. `FindDefinition` takes the first such definition.
  - The test-step and pickle look-ups are fields of the finished step, not look-ups in a repository.
  - The repository's feature switches and every message kind the report does not read are collapsed into one `OtherMessage`.
- Output streams are strings:
  - `OutputStreamWriter`, UTF-8 encoding and `IOException` are not modelled.
  - A serializer's failure is the `error` of its `Written` result. The writer passes it on after closing the stream.
  - Building the report cannot fail in the model.
- The `requireNonNull` checks on the writer's and builders' arguments are not modelled. The arguments of Dafny members cannot be null. The `UsageReport` constructors model their null checks with `Option` arguments.
- The line separator (`System.lineSeparator()`) is a parameter of every serializer.
- Cell widths count Dafny `char`s, which are Unicode scalar values. Java counts UTF-16 code units, so a character outside the Basic Multilingual Plane counts once here and twice in Java, and such cells may be padded differently.
- The JSON serializer of the report is not part of this model. It is a call into a library.
- `DurationComparator` is modelled as the order of the nanosecond totals, and `DurationOrder` proves that this is the order by seconds, then nanos.
- The builders' methods return nothing instead of `this`. Chaining is the caller's sequence of calls.
- Tables.Table.AddTo: `addTo(a, a)` would append the rows of `a` to themselves. The ensures states that case too, through `old(b.rows)`. Aliasing of the row arrays inside a table is not modelled, because rows are values here.
- The loops inside the streams (`forEach`, `limit`) are helper methods with their own contracts: `AddRows`, `AddSteps`, `AddStepRows` and `AddStepSection`.
- StableSort.Sort states only the length in its own ensures. Its order, stability and permutation are `StableSort.SortCorrect`'s, and its uniqueness is `StableSort.SortUnique`'s.
- StableSort.Filter: its own ensures bounds only the length; `FilterAppend` and `SortCorrect` state what it keeps.
- StableSort.Insert: its own ensures states only the length; `InsertFacts` states the permutation and the order.
- LinkedGroups.Select: its own ensures bounds only the length; `SelectAbsent`, `SelectPresent` and `GroupByGroups` state what it groups.
- UsageReportBuilder.Somes: its own ensures bounds only the length; `SomesMembership`, `SomesDedup` and `SomesPresent` state its contents.
- UnusedReportSerializer.Unused: its own ensures bounds only the length; `UnusedMembers` and `UnusedAppend` state its contents and order.
- The facts about the "k more" row and the step limit are stated once, for any row type, in `ReportRows`. The serializers inherit them through `RowsOf`.
- The Java-method, stack-trace and URI text is built as the source builds it. `String.format` itself is not modelled.
