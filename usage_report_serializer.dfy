/** The table serializer over the report's own records: one row per step
    definition, in descending order of mean duration with definitions that
    never ran last, optionally followed by its steps in descending order of
    duration, capped per definition. */
module UsageReportSerializer {
  import opened Wrappers
  import opened Strings
  import opened Messages
  import opened UsageReport
  import opened StableSort
  import opened Tables
  import opened TableFormatter
  import opened ReportRows
  import SourceReferenceFormatter

  /** The step limit that means "every step". */
  const IncludeAllSteps: int := -1

  /** A per-definition step limit: a count, or `IncludeAllSteps`. */
  type StepLimit = n: int | n >= IncludeAllSteps

  datatype PlainTextFeature = IncludeSteps

  /** What a built serializer holds. */
  datatype Config = Config(
    maxStepsPerStepDefinition: StepLimit,
    features: set<PlainTextFeature>,
    uriFormatter: string -> string)

  /** `includeToIndex`: every step under `IncludeAllSteps`, else at most the limit. */
  function Shown(limit: StepLimit, size: nat): (n: nat)
    ensures n <= size
    ensures limit == IncludeAllSteps ==> n == size
    ensures limit != IncludeAllSteps ==> n == limit || (n == size && size < limit)
  {
    if limit == IncludeAllSteps then size else if limit < size then limit else size
  }

  function StepKey(s: StepUsage): Rank
  {
    DurationRank(s.duration)
  }

  function DefinitionKey(d: StepDefinitionUsage): Rank
  {
    MeanRank(d.duration)
  }

  /** A step's location: the formatted URI and, when known, ":" and the line. */
  function StepLocation(uriFormatter: string -> string, s: StepUsage): string
  {
    uriFormatter(s.uri) + SourceReferenceFormatter.LineSuffix(s.location)
  }

  function StepRowOf(uriFormatter: string -> string, s: StepUsage): seq<string>
  {
    StepRow(s.text, s.duration, StepLocation(uriFormatter, s))
  }

  /** `StepRowOf` for one URI formatter, as a function value. */
  function StepRowWith(uriFormatter: string -> string): StepUsage -> seq<string>
  {
    s => StepRowOf(uriFormatter, s)
  }

  function DefinitionRowOf(config: Config, d: StepDefinitionUsage): seq<string>
  {
    DefinitionRow(
      d.pattern.source,
      SourceReferenceFormatter.Format(config.uriFormatter, d.sourceReference).GetOr(""),
      d.duration)
  }

  /** The rows `createRows` adds for one step definition. */
  function RowsOf(config: Config, d: StepDefinitionUsage): seq<seq<string>>
  {
    DefinitionRows(DefinitionRowOf(config, d), d.matches, StepKey, StepRowWith(config.uriFormatter),
      IncludeSteps in config.features, Shown(config.maxStepsPerStepDefinition, |d.matches|))
  }

  /** `RowsOf` for one configuration, as a function value. */
  function RowsWith(config: Config): StepDefinitionUsage -> seq<seq<string>>
  {
    d => RowsOf(config, d)
  }

  /** The rows of `createTable`: the headers, then each definition's rows in
      sorted order. */
  function TableRows(config: Config, definitions: seq<StepDefinitionUsage>): seq<seq<string>>
  {
    [Headers] + Flatten(Sort(definitions, DefinitionKey), RowsWith(config))
  }

  /** Every row has one cell per header. */
  lemma TableRowsShape(config: Config, definitions: seq<StepDefinitionUsage>)
    ensures var rows := TableRows(config, definitions);
      |rows| >= 1 && rows[0] == Headers && Rectangular(rows, |Headers|)
  {
    var rowsOf := RowsWith(config);
    forall d: StepDefinitionUsage
      ensures Rectangular(rowsOf(d), |Headers|)
    {
      RowsOfShape(config, d);
    }
    FlattenRectangular(Sort(definitions, DefinitionKey), rowsOf, |Headers|);
  }

  /** Each definition's rows have one cell per header. */
  lemma RowsOfShape(config: Config, d: StepDefinitionUsage)
    ensures Rectangular(RowsOf(config, d), |Headers|)
  {
    DefinitionRowsWidth(DefinitionRowOf(config, d), d.matches, StepKey, StepRowWith(config.uriFormatter),
      IncludeSteps in config.features, Shown(config.maxStepsPerStepDefinition, |d.matches|));
  }

  /** `format`: nothing for an empty report, otherwise the rendered table. */
  function Serialize(config: Config, report: UsageReport, lineSep: string): (text: string)
    ensures text == "" <==> |report.stepDefinitions| == 0
  {
    if |report.stepDefinitions| == 0 then ""
    else
      var rows := TableRows(config, report.stepDefinitions);
      TableRowsShape(config, report.stepDefinitions);
      RenderShowsFirstCell(rows, LeftAlign, lineSep);
      Render(rows, LeftAlign, lineSep)
  }

  /** `createRows`: a fresh table holding the definition's row and, with
      `INCLUDE_STEPS`, its step rows. */
  method CreateRows(config: Config, d: StepDefinitionUsage) returns (table: Table)
    ensures fresh(table)
    ensures table.rows == RowsOf(config, d)
  {
    var head := [DefinitionRowOf(config, d)];
    table := new Table();
    table.Add(DefinitionRowOf(config, d));
    if IncludeSteps !in config.features {
      assert RowsOf(config, d) == head + [];
      return;
    }
    var steps := d.matches;
    if |steps| == 0 {
      table.Add(UnusedRow);
      assert RowsOf(config, d) == head + [UnusedRow];
      return;
    }
    AddStepSection(table, config, steps);
  }

  /** The part of `createRows` for a definition some step used: its longest
      steps, then the "k more" row when steps were left out. */
  method AddStepSection(table: Table, config: Config, steps: seq<StepUsage>)
    requires |steps| > 0
    modifies table
    ensures table.rows == old(table.rows)
      + StepSection(steps, StepKey, StepRowWith(config.uriFormatter), Shown(config.maxStepsPerStepDefinition, |steps|))
  {
    var includeAllSteps := config.maxStepsPerStepDefinition == IncludeAllSteps;
    var includeToIndex := if includeAllSteps then |steps|
      else if config.maxStepsPerStepDefinition < |steps| then config.maxStepsPerStepDefinition else |steps|;
    var sorted := Sort(steps, StepKey);
    ghost var head := table.rows;
    ghost var row := StepRowWith(config.uriFormatter);
    StepSectionUsed(steps, StepKey, row, includeToIndex);
    AddStepRows(table, config.uriFormatter, sorted, includeToIndex);
    ghost var shownRows := RowsFor(sorted[..includeToIndex], row);
    if |steps| > includeToIndex {
      table.Add(MoreRow(|steps| - includeToIndex));
      AppendAssoc(head, shownRows, [MoreRow(|steps| - includeToIndex)]);
    } else {
      assert shownRows + [] == shownRows;
    }
  }

  /** The loop of `createRows` over the first `n` sorted steps. */
  method AddStepRows(table: Table, uriFormatter: string -> string, sorted: seq<StepUsage>, n: nat)
    requires n <= |sorted|
    modifies table
    ensures table.rows == old(table.rows) + RowsFor(sorted[..n], StepRowWith(uriFormatter))
  {
    ghost var head := table.rows;
    ghost var row := StepRowWith(uriFormatter);
    var k := 0;
    while k < n
      invariant 0 <= k <= n
      invariant table.rows == head + RowsFor(sorted[..k], row)
    {
      RowsForSnoc(sorted, k, row);
      AppendAssoc(head, RowsFor(sorted[..k], row), [row(sorted[k])]);
      table.Add(StepRowOf(uriFormatter, sorted[k]));
      k := k + 1;
    }
  }

  /** `createTable`: the definitions sorted, each turned into rows, and the
      row tables folded into one that starts with the headers. */
  method CreateTable(config: Config, definitions: seq<StepDefinitionUsage>) returns (table: Table)
    ensures fresh(table)
    ensures table.rows == TableRows(config, definitions)
  {
    var sorted := Sort(definitions, DefinitionKey);
    var rowsOf := RowsWith(config);
    table := new Table.WithHeaders(Headers);
    var i := 0;
    while i < |sorted|
      invariant 0 <= i <= |sorted|
      invariant fresh(table)
      invariant table.rows == [Headers] + Flatten(sorted[..i], rowsOf)
    {
      var rows := CreateRows(config, sorted[i]);
      table := Table.AddTo(table, rows);
      FlattenSnoc(sorted, i, rowsOf);
      AppendAssoc([Headers], Flatten(sorted[..i], rowsOf), rowsOf(sorted[i]));
      i := i + 1;
    }
    assert sorted[..i] == sorted;
  }

  /** `format`, as the serializer's `writeValue` appends it to the writer. */
  method Format(config: Config, report: UsageReport, lineSep: string) returns (text: string)
    ensures text == Serialize(config, report, lineSep)
  {
    if |report.stepDefinitions| == 0 {
      return "";
    }
    var table := CreateTable(config, report.stepDefinitions);
    TableRowsShape(config, report.stepDefinitions);
    text := TableFormatter.Format(table, LeftAlign, lineSep);
  }

  /** The definitions are listed in descending order of mean duration, every
      definition exactly once, those with equal means in report order, and
      those without statistics after all others. */
  lemma DefinitionOrder(definitions: seq<StepDefinitionUsage>)
    ensures var sorted := Sort(definitions, DefinitionKey);
      && multiset(sorted) == multiset(definitions)
      && Descending(sorted, DefinitionKey)
      && (forall k :: Filter(sorted, DefinitionKey, k) == Filter(definitions, DefinitionKey, k))
      && forall i, j :: 0 <= i < j < |sorted| && sorted[i].duration.None? ==> sorted[j].duration.None?
  {
    var sorted := Sort(definitions, DefinitionKey);
    SortCorrect(definitions, DefinitionKey);
    forall i, j | 0 <= i < j < |sorted| && sorted[i].duration.None?
      ensures sorted[j].duration.None?
    {
      NullsLast(sorted, DefinitionKey, i, j);
    }
  }

  /** Without `INCLUDE_STEPS` each definition contributes exactly one row. */
  lemma OneRowPerDefinition(config: Config, definitions: seq<StepDefinitionUsage>)
    requires IncludeSteps !in config.features
    ensures |TableRows(config, definitions)| == 1 + |definitions|
  {
    FlattenLength(Sort(definitions, DefinitionKey), RowsWith(config), 1);
  }

  /** With `INCLUDE_STEPS`: an unused definition gets the "UNUSED" row; a used
      one gets a row for each of its first `shown` steps in sorted order,
      `shown` being all of them under `IncludeAllSteps` and at most the limit
      otherwise, then one more row exactly when steps are left out (its
      contents are `DefinitionRowsMore`'s). */
  lemma StepRows(config: Config, d: StepDefinitionUsage)
    requires IncludeSteps in config.features
    ensures var rows := RowsOf(config, d);
      var size := |d.matches|;
      var shown := Shown(config.maxStepsPerStepDefinition, size);
      var sorted := Sort(d.matches, StepKey);
      && rows[0] == DefinitionRowOf(config, d)
      && (size == 0 ==> rows == [DefinitionRowOf(config, d), UnusedRow])
      && (size > 0 ==> |rows| == 1 + shown + (if size > shown then 1 else 0))
      && (size > 0 ==> forall i :: 0 <= i < shown ==> rows[1 + i] == StepRowOf(config.uriFormatter, sorted[i]))
  {
    var row := StepRowWith(config.uriFormatter);
    var shown := Shown(config.maxStepsPerStepDefinition, |d.matches|);
    DefinitionRowsShape(DefinitionRowOf(config, d), d.matches, StepKey, row, IncludeSteps in config.features, shown);
    var rows := RowsOf(config, d);
    var sorted := Sort(d.matches, StepKey);
    forall i | 0 <= i < shown
      ensures rows[1 + i] == StepRowOf(config.uriFormatter, sorted[i])
    {
      assert rows[1 + i] == row(sorted[i]);
    }
  }

  /** The steps shown are the longest: no step left out took longer than a
      step shown, and the sort only reorders the definition's steps. */
  lemma LongestStepsShown(config: Config, d: StepDefinitionUsage)
    ensures var size := |d.matches|;
      var shown := Shown(config.maxStepsPerStepDefinition, size);
      var sorted := Sort(d.matches, StepKey);
      && multiset(sorted) == multiset(d.matches)
      && forall i, j :: 0 <= i < shown <= j < size ==> sorted[j].duration.TotalNanos() <= sorted[i].duration.TotalNanos()
  {
    var size := |d.matches|;
    var shown := Shown(config.maxStepsPerStepDefinition, size);
    ShownAreLongest(d.matches, StepKey, shown);
    var sorted := Sort(d.matches, StepKey);
    forall i, j | 0 <= i < shown <= j < size
      ensures sorted[j].duration.TotalNanos() <= sorted[i].duration.TotalNanos()
    {
      assert AtMost(StepKey(sorted[j]), StepKey(sorted[i]));
    }
  }

  /** The serializer's builder: no features, every step, and the identity
      URI formatter until told otherwise. */
  class Builder {
    var features: set<PlainTextFeature>
    var maxStepsPerStepDefinition: StepLimit
    var uriFormatter: string -> string

    constructor ()
      ensures features == {} && maxStepsPerStepDefinition == IncludeAllSteps
      ensures forall s :: uriFormatter(s) == s
    {
      features := {};
      maxStepsPerStepDefinition := IncludeAllSteps;
      uriFormatter := s => s;
    }

    /** `feature(feature, enabled)`: switches one feature on or off. */
    method Feature(feature: PlainTextFeature, enabled: bool)
      modifies this
      ensures features == if enabled then old(features) + {feature} else old(features) - {feature}
      ensures maxStepsPerStepDefinition == old(maxStepsPerStepDefinition) && uriFormatter == old(uriFormatter)
    {
      if enabled {
        features := features + {feature};
      } else {
        features := features - {feature};
      }
    }

    /** `maxStepsPerStepDefinition(n)`: a negative limit means every step. */
    method MaxStepsPerStepDefinition(n: int)
      modifies this
      ensures maxStepsPerStepDefinition == if n < 0 then IncludeAllSteps else n
      ensures features == old(features) && uriFormatter == old(uriFormatter)
    {
      maxStepsPerStepDefinition := if n < 0 then IncludeAllSteps else n;
    }

    /** `removeUriPrefix(prefix)`: URIs lose `prefix` when they start with it. */
    method RemoveUriPrefix(prefix: string)
      modifies this
      ensures forall s :: uriFormatter(s) == RemovePrefix(prefix, s)
      ensures features == old(features) && maxStepsPerStepDefinition == old(maxStepsPerStepDefinition)
    {
      uriFormatter := s => RemovePrefix(prefix, s);
    }

    method Build() returns (config: Config)
      ensures config == Config(maxStepsPerStepDefinition, features, uriFormatter)
    {
      config := Config(maxStepsPerStepDefinition, features, uriFormatter);
    }
  }
}
