/** The first plain-text serializer: the same table as the configurable
    serializer, with the steps of each definition always included and at
    most five of them shown. */
module PlainTextSerializer {
  import opened UsageReport
  import opened Tables
  import opened TableFormatter
  import opened ReportRows
  import opened UsageReportPlainTextSerializer

  const MaxNumberOfSteps: nat := 5

  /** The configuration this serializer is fixed to. */
  const Fixed: Config := Config(MaxNumberOfSteps, {IncludeSteps})

  /** `format`: nothing for an empty report, otherwise the headers, each
      definition's rows in descending order of mean duration, rendered
      column-aligned between line separators. */
  method Format(report: FlatReport, lineSep: string) returns (text: string)
    ensures text == Serialize(Fixed, report, lineSep)
    ensures text == "" <==> |report.stepDefinitions| == 0
  {
    if |report.stepDefinitions| == 0 {
      return "";
    }
    var table := CreateTable(Fixed, report.stepDefinitions);
    TableRowsShape(Fixed, report.stepDefinitions);
    text := FormatRows(table, LeftAlign, lineSep);
  }

  /** A definition no step used gets the "UNUSED" row; a used one gets a row
      per step up to five, and one more row when it has more than five. */
  lemma StepRowsOfFive(d: FlatDefinitionUsage)
    ensures var rows := RowsOf(Fixed, d);
      var size := |d.steps|;
      && rows[0] == DefinitionRowOf(d)
      && (size == 0 ==> rows == [DefinitionRowOf(d), UnusedRow])
      && (0 < size <= MaxNumberOfSteps ==> |rows| == 1 + size)
      && (size > MaxNumberOfSteps ==> |rows| == 2 + MaxNumberOfSteps)
  {
    StepRows(Fixed, d);
  }
}
