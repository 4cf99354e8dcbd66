/** The plain-text table serializer over the flat report records: one row
    per step definition, in descending order of mean duration with
    definitions that never ran last, optionally followed by its longest steps
    up to a per-definition limit and a "k more" row. The table is a list of
    rows built up in a local variable, then rendered column-aligned. */
module UsageReportPlainTextSerializer {
  import opened Strings
  import opened UsageReport
  import opened StableSort
  import opened Tables
  import opened TableFormatter
  import opened ReportRows

  /** `Integer.MAX_VALUE`, the limit a negative request turns into. */
  const IntMax: nat := 2147483647

  datatype PlainTextFeature = IncludeSteps

  /** What a built serializer holds: the builder only ever stores a
      non-negative limit. */
  datatype Config = Config(maxStepsPerStepDefinition: nat, features: set<PlainTextFeature>)

  function StepKey(s: FlatStepUsage): Rank
  {
    DurationRank(s.duration)
  }

  function DefinitionKey(d: FlatDefinitionUsage): Rank
  {
    MeanRank(d.duration)
  }

  function StepRowOf(s: FlatStepUsage): seq<string>
  {
    StepRow(s.text, s.duration, s.location)
  }

  function DefinitionRowOf(d: FlatDefinitionUsage): seq<string>
  {
    DefinitionRow(d.expression, d.location, d.duration)
  }

  /** The rows one turn of `createTable`'s `forEach` adds for a definition. */
  function RowsOf(config: Config, d: FlatDefinitionUsage): seq<seq<string>>
  {
    DefinitionRows(DefinitionRowOf(d), d.steps, StepKey, StepRowOf,
      IncludeSteps in config.features, Limit(config.maxStepsPerStepDefinition, |d.steps|))
  }

  function RowsWith(config: Config): FlatDefinitionUsage -> seq<seq<string>>
  {
    d => RowsOf(config, d)
  }

  /** The rows of `createTable`: the headers, then each definition's rows in
      sorted order. */
  function TableRows(config: Config, definitions: seq<FlatDefinitionUsage>): seq<seq<string>>
  {
    [Headers] + Flatten(Sort(definitions, DefinitionKey), RowsWith(config))
  }

  /** Every row has one cell per header, the headers on top. */
  lemma TableRowsShape(config: Config, definitions: seq<FlatDefinitionUsage>)
    ensures var rows := TableRows(config, definitions);
      |rows| >= 1 && rows[0] == Headers && Rectangular(rows, |Headers|)
  {
    var rowsOf := RowsWith(config);
    forall d: FlatDefinitionUsage
      ensures Rectangular(rowsOf(d), |Headers|)
    {
      RowsOfShape(config, d);
    }
    FlattenRectangular(Sort(definitions, DefinitionKey), rowsOf, |Headers|);
  }

  lemma RowsOfShape(config: Config, d: FlatDefinitionUsage)
    ensures Rectangular(RowsOf(config, d), |Headers|)
  {
    DefinitionRowsWidth(DefinitionRowOf(d), d.steps, StepKey, StepRowOf,
      IncludeSteps in config.features, Limit(config.maxStepsPerStepDefinition, |d.steps|));
  }

  /** `format`: nothing for an empty report, otherwise the rendered table. */
  function Serialize(config: Config, report: FlatReport, lineSep: string): (text: string)
    ensures text == "" <==> |report.stepDefinitions| == 0
  {
    if |report.stepDefinitions| == 0 then ""
    else
      var rows := TableRows(config, report.stepDefinitions);
      TableRowsShape(config, report.stepDefinitions);
      RenderShowsFirstCell(rows, LeftAlign, lineSep);
      Render(rows, LeftAlign, lineSep)
  }

  /** `format`, as `writeValue` appends it to the writer. */
  method Format(config: Config, report: FlatReport, lineSep: string) returns (text: string)
    ensures text == Serialize(config, report, lineSep)
  {
    if |report.stepDefinitions| == 0 {
      return "";
    }
    var table := CreateTable(config, report.stepDefinitions);
    TableRowsShape(config, report.stepDefinitions);
    text := FormatTable(table, lineSep);
  }

  /** `formatTable`: the column-aligned rendering with this serializer's
      alignment per column. */
  method FormatTable(table: seq<seq<string>>, lineSep: string) returns (text: string)
    requires |table| >= 1 && Rectangular(table, |table[0]|) && |table[0]| <= |LeftAlign|
    ensures text == Render(table, LeftAlign, lineSep)
  {
    text := FormatRows(table, LeftAlign, lineSep);
  }

  /** `createTable`: the headers, then the rows of each definition in sorted
      order. */
  method CreateTable(config: Config, definitions: seq<FlatDefinitionUsage>) returns (table: seq<seq<string>>)
    ensures table == TableRows(config, definitions)
  {
    var sorted := Sort(definitions, DefinitionKey);
    ghost var rowsOf := RowsWith(config);
    table := [Headers];
    var i := 0;
    while i < |sorted|
      invariant 0 <= i <= |sorted|
      invariant table == [Headers] + Flatten(sorted[..i], rowsOf)
    {
      table := AddDefinition(table, config, sorted[i]);
      FlattenSnoc(sorted, i, rowsOf);
      AppendAssoc([Headers], Flatten(sorted[..i], rowsOf), rowsOf(sorted[i]));
      i := i + 1;
    }
    assert sorted[..i] == sorted;
  }

  /** The body of `createTable`'s `forEach` for one definition. */
  method AddDefinition(table: seq<seq<string>>, config: Config, d: FlatDefinitionUsage) returns (table': seq<seq<string>>)
    ensures table' == table + RowsOf(config, d)
  {
    table' := table + [DefinitionRowOf(d)];
    if IncludeSteps !in config.features {
      AppendAssoc(table, [DefinitionRowOf(d)], []);
      return;
    }
    if |d.steps| == 0 {
      table' := table' + [UnusedRow];
      AppendAssoc(table, [DefinitionRowOf(d)], [UnusedRow]);
      return;
    }
    ghost var section := StepSection(d.steps, StepKey, StepRowOf, Limit(config.maxStepsPerStepDefinition, |d.steps|));
    table' := AddSteps(table', config.maxStepsPerStepDefinition, d.steps);
    AppendAssoc(table, [DefinitionRowOf(d)], section);
  }

  /** The steps of a used definition: the sorted steps up to the limit, then
      the "k more" row when the limit left some out. */
  method AddSteps(table: seq<seq<string>>, max: nat, steps: seq<FlatStepUsage>) returns (table': seq<seq<string>>)
    requires |steps| > 0
    ensures table' == table + StepSection(steps, StepKey, StepRowOf, Limit(max, |steps|))
  {
    var sorted := Sort(steps, StepKey);
    var shown := Limit(max, |steps|);
    StepSectionUsed(steps, StepKey, StepRowOf, shown);
    table' := AddRows(table, sorted, StepRowOf, shown);
    ghost var shownRows := RowsFor(sorted[..shown], StepRowOf);
    if |steps| > max {
      table' := table' + [MoreRow(|steps| - max)];
      AppendAssoc(table, shownRows, [MoreRow(|steps| - max)]);
    } else {
      assert shownRows + [] == shownRows;
    }
  }

  /** The `forEach` that adds one row per element, over the first `n`. */
  method AddRows<T>(table: seq<seq<string>>, xs: seq<T>, row: T -> seq<string>, n: nat) returns (table': seq<seq<string>>)
    requires n <= |xs|
    ensures table' == table + RowsFor(xs[..n], row)
  {
    table' := table;
    var k := 0;
    while k < n
      invariant 0 <= k <= n
      invariant table' == table + RowsFor(xs[..k], row)
    {
      RowsForSnoc(xs, k, row);
      AppendAssoc(table, RowsFor(xs[..k], row), [row(xs[k])]);
      table' := table' + [row(xs[k])];
      k := k + 1;
    }
  }

  /** The definitions are listed in descending order of mean duration, every
      definition exactly once, those with equal means in report order, and
      those without statistics after all others. */
  lemma DefinitionOrder(definitions: seq<FlatDefinitionUsage>)
    ensures var sorted := Sort(definitions, DefinitionKey);
      && multiset(sorted) == multiset(definitions)
      && Descending(sorted, DefinitionKey)
      && (forall k :: Filter(sorted, DefinitionKey, k) == Filter(definitions, DefinitionKey, k))
      && forall i, j :: 0 <= i < j < |sorted| && sorted[i].duration.None? ==> sorted[j].duration.None?
  {
    var sorted := Sort(definitions, DefinitionKey);
    SortCorrect(definitions, DefinitionKey);
    forall i, j | 0 <= i < j < |sorted| && sorted[i].duration.None?
      ensures sorted[j].duration.None?
    {
      NullsLast(sorted, DefinitionKey, i, j);
    }
  }

  /** Without `INCLUDE_STEPS` each definition contributes exactly one row. */
  lemma OneRowPerDefinition(config: Config, definitions: seq<FlatDefinitionUsage>)
    requires IncludeSteps !in config.features
    ensures |TableRows(config, definitions)| == 1 + |definitions|
  {
    FlattenLength(Sort(definitions, DefinitionKey), RowsWith(config), 1);
  }

  /** With `INCLUDE_STEPS`: an unused definition gets the "UNUSED" row; a used
      one gets a row for each of its first `min(max, size)` steps, then one
      more row exactly when `size > max`. */
  lemma StepRows(config: Config, d: FlatDefinitionUsage)
    requires IncludeSteps in config.features
    ensures var rows := RowsOf(config, d);
      var size := |d.steps|;
      var max := config.maxStepsPerStepDefinition;
      && rows[0] == DefinitionRowOf(d)
      && (size == 0 ==> rows == [DefinitionRowOf(d), UnusedRow])
      && (size > 0 ==> |rows| == 1 + Limit(max, size) + (if size > max then 1 else 0))
  {
    var max := config.maxStepsPerStepDefinition;
    DefinitionRowsShape(DefinitionRowOf(d), d.steps, StepKey, StepRowOf, true, Limit(max, |d.steps|));
    if |d.steps| > 0 {
      LimitedRows(DefinitionRowOf(d), d.steps, StepKey, StepRowOf, true, max);
    }
  }

  /** The step rows of a used definition are its steps in descending order
      of duration, as many as the limit allows. */
  lemma ShownStepRows(config: Config, d: FlatDefinitionUsage, i: nat)
    requires IncludeSteps in config.features
    requires i < Limit(config.maxStepsPerStepDefinition, |d.steps|)
    ensures RowsOf(config, d)[1 + i] == StepRowOf(Sort(d.steps, StepKey)[i])
  {
    DefinitionRowsShape(DefinitionRowOf(d), d.steps, StepKey, StepRowOf,
      IncludeSteps in config.features, Limit(config.maxStepsPerStepDefinition, |d.steps|));
  }

  /** The steps shown are the longest: no step left out took longer than a
      step shown, and the sort only reorders the definition's steps. */
  lemma LongestStepsShown(config: Config, d: FlatDefinitionUsage)
    ensures var size := |d.steps|;
      var shown := Limit(config.maxStepsPerStepDefinition, size);
      var sorted := Sort(d.steps, StepKey);
      && multiset(sorted) == multiset(d.steps)
      && forall i, j :: 0 <= i < shown <= j < size ==> sorted[j].duration.TotalNanos() <= sorted[i].duration.TotalNanos()
  {
    var size := |d.steps|;
    var shown := Limit(config.maxStepsPerStepDefinition, size);
    ShownAreLongest(d.steps, StepKey, shown);
    var sorted := Sort(d.steps, StepKey);
    forall i, j | 0 <= i < shown <= j < size
      ensures sorted[j].duration.TotalNanos() <= sorted[i].duration.TotalNanos()
    {
      assert AtMost(StepKey(sorted[j]), StepKey(sorted[i]));
    }
  }

  /** The serializer's builder: no features and a limit of 0 until told
      otherwise. */
  class Builder {
    var features: set<PlainTextFeature>
    var maxStepsPerStepDefinition: nat

    constructor ()
      ensures features == {} && maxStepsPerStepDefinition == 0
    {
      features := {};
      maxStepsPerStepDefinition := 0;
    }

    /** `feature(feature, enabled)`: switches one feature on or off. */
    method Feature(feature: PlainTextFeature, enabled: bool)
      modifies this
      ensures features == if enabled then old(features) + {feature} else old(features) - {feature}
      ensures maxStepsPerStepDefinition == old(maxStepsPerStepDefinition)
    {
      if enabled {
        features := features + {feature};
      } else {
        features := features - {feature};
      }
    }

    /** `maxStepsPerStepDefinition(n)`: a negative limit becomes
        `Integer.MAX_VALUE`. */
    method MaxStepsPerStepDefinition(n: int)
      modifies this
      ensures maxStepsPerStepDefinition == if n < 0 then IntMax else n
      ensures features == old(features)
    {
      maxStepsPerStepDefinition := if n < 0 then IntMax else n;
    }

    method Build() returns (config: Config)
      ensures config == Config(maxStepsPerStepDefinition, features)
    {
      config := Config(maxStepsPerStepDefinition, features);
    }
  }
}
