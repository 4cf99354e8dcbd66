/** The usage report: immutable records whose constructors reject missing
    (null) required fields and keep optional ones as `Option`. Getters return
    the stored fields, so they are the datatype's destructors. */
module UsageReport {
  import opened Wrappers
  import opened Messages

  /** The exception `requireNonNull` throws. */
  datatype Error = MissingArgument

  /** Sum, mean and 95% margin of error of a step definition's durations. */
  datatype Statistics = Statistics(sum: Duration, mean: Duration, moe95: Duration)

  /** One execution of a step: its text, how long it took, and where it is. */
  datatype StepUsage = StepUsage(text: string, duration: Duration, uri: string, location: Option<Location>)

  datatype StepDefinitionUsage = StepDefinitionUsage(
    pattern: StepDefinitionPattern,
    sourceReference: SourceReference,
    duration: Option<Statistics>,
    matches: seq<StepUsage>)

  datatype UsageReport = UsageReport(stepDefinitions: seq<StepDefinitionUsage>)

  /** `new UsageReport(stepDefinitions)`; `None` stands for `null`. */
  function NewUsageReport(stepDefinitions: Option<seq<StepDefinitionUsage>>): (r: Result<UsageReport, Error>)
    ensures r.Success? <==> stepDefinitions.Some?
    ensures r.Success? ==> r.value.stepDefinitions == stepDefinitions.value
  {
    match stepDefinitions
    case None => Failure(MissingArgument)
    case Some(defs) => Success(UsageReport(defs))
  }

  /** `new StepDefinitionUsage(pattern, sourceReference, duration, matches)`:
      the statistics may be null, nothing else may. */
  function NewStepDefinitionUsage(
    pattern: Option<StepDefinitionPattern>,
    sourceReference: Option<SourceReference>,
    duration: Option<Statistics>,
    matches: Option<seq<StepUsage>>): (r: Result<StepDefinitionUsage, Error>)
    ensures r.Success? <==> pattern.Some? && sourceReference.Some? && matches.Some?
    ensures r.Success? ==>
      && r.value.pattern == pattern.value
      && r.value.sourceReference == sourceReference.value
      && r.value.duration == duration
      && r.value.matches == matches.value
  {
    if pattern.None? || sourceReference.None? || matches.None? then Failure(MissingArgument)
    else Success(StepDefinitionUsage(pattern.value, sourceReference.value, duration, matches.value))
  }

  /** `new StepUsage(text, duration, uri, location)`: only the location may be
      null, and `getLocation()` is empty exactly when it was. */
  function NewStepUsage(
    text: Option<string>,
    duration: Option<Duration>,
    uri: Option<string>,
    location: Option<Location>): (r: Result<StepUsage, Error>)
    ensures r.Success? <==> text.Some? && duration.Some? && uri.Some?
    ensures r.Success? ==>
      && r.value.text == text.value
      && r.value.duration == duration.value
      && r.value.uri == uri.value
      && r.value.location == location
  {
    if text.None? || duration.None? || uri.None? then Failure(MissingArgument)
    else Success(StepUsage(text.value, duration.value, uri.value, location))
  }

  /** The record the report builder and the plain-text serializers work on:
      a step's text, its duration and its already formatted location. */
  datatype FlatStepUsage = FlatStepUsage(text: string, duration: Duration, location: string)

  /** A step definition as the builder and the plain-text serializers see it:
      its pattern source, its formatted source reference, its statistics
      (absent when it never ran) and its steps. */
  datatype FlatDefinitionUsage = FlatDefinitionUsage(
    expression: string,
    location: string,
    duration: Option<Statistics>,
    steps: seq<FlatStepUsage>)

  datatype FlatReport = FlatReport(stepDefinitions: seq<FlatDefinitionUsage>)
}
