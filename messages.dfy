/** The Cucumber message types the usage report reads, reduced to the fields
    the report uses. They are plain values: the message library builds them
    and the report never changes them. */
module Messages {
  import opened Wrappers

  const NanosPerSecond: int := 1_000_000_000

  /** A duration as seconds and nanoseconds, both as `java.time.Duration`
      and the `Duration` message keep it. */
  datatype Duration = Duration(seconds: int, nanos: int)
  {
    /** The normal form Java keeps: the nanosecond part is in [0, 10^9). */
    predicate Valid()
    {
      0 <= nanos < NanosPerSecond
    }

    function TotalNanos(): int
    {
      seconds * NanosPerSecond + nanos
    }
  }

  const Zero: Duration := Duration(0, 0)

  datatype Location = Location(line: int, column: Option<int>)

  datatype StepDefinitionPattern = StepDefinitionPattern(source: string)

  datatype JavaMethod = JavaMethod(className: string, methodName: string, methodParameterTypes: seq<string>)

  datatype JavaStackTraceElement = JavaStackTraceElement(className: string, fileName: string, methodName: string)

  /** Where a step definition is declared; each part may be missing. */
  datatype SourceReference = SourceReference(
    uri: Option<string>,
    javaMethod: Option<JavaMethod>,
    javaStackTraceElement: Option<JavaStackTraceElement>,
    location: Option<Location>)

  datatype StepDefinition = StepDefinition(id: string, pattern: StepDefinitionPattern, sourceReference: SourceReference)
}
