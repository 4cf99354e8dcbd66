/** How a step definition's source reference is shown: the Java method if
    there is one, else the stack-trace element, else the URI, else nothing. */
module SourceReferenceFormatter {
  import opened Wrappers
  import opened Strings
  import opened Messages

  /** `location.map(Location::getLine).map(line -> ":" + line).orElse("")`. */
  function LineSuffix(location: Option<Location>): (r: string)
    ensures location.None? ==> r == ""
    ensures location.Some? ==>
      && |r| >= 2 && r[0] == ':'
      && AllDigits(if r[1] == '-' then r[2..] else r[1..])
      && ParseInt(r[1..]) == location.value.line
  {
    match location
    case None => ""
    case Some(l) =>
      IntToStringRoundTrip(l.line);
      var digits := IntToString(l.line);
      assert (":" + digits)[1..] == digits;
      ":" + digits
  }

  /** `"%s.%s(%s)"` of the class, the method and the parameter types joined by ",". */
  function JavaMethodText(m: JavaMethod): string
  {
    m.className + "." + m.methodName + "(" + Join(m.methodParameterTypes, ",") + ")"
  }

  /** `"%s.%s(%s%s)"` of the class, the method, the file and the line suffix. */
  function StackTraceElementText(e: JavaStackTraceElement, location: Option<Location>): string
  {
    e.className + "." + e.methodName + "(" + e.fileName + LineSuffix(location) + ")"
  }

  /** `SourceReferenceFormatter.format`. */
  function Format(uriFormatter: string -> string, sr: SourceReference): (r: Option<string>)
    ensures r.None? <==> sr.javaMethod.None? && sr.javaStackTraceElement.None? && sr.uri.None?
    ensures sr.javaMethod.Some? ==> r == Some(JavaMethodText(sr.javaMethod.value))
    ensures sr.javaMethod.None? && sr.javaStackTraceElement.Some? ==>
      r == Some(StackTraceElementText(sr.javaStackTraceElement.value, sr.location))
    ensures sr.javaMethod.None? && sr.javaStackTraceElement.None? && sr.uri.Some? ==>
      r == Some(uriFormatter(sr.uri.value) + LineSuffix(sr.location))
  {
    if sr.javaMethod.Some? then Some(JavaMethodText(sr.javaMethod.value))
    else if sr.javaStackTraceElement.Some? then Some(StackTraceElementText(sr.javaStackTraceElement.value, sr.location))
    else if sr.uri.Some? then Some(uriFormatter(sr.uri.value) + LineSuffix(sr.location))
    else None
  }

  /** A Java method wins over everything else: the stack-trace element, the
      URI and the location make no difference, and neither does the URI
      formatter. */
  lemma {:induction false} JavaMethodWins(f: string -> string, g: string -> string, sr: SourceReference,
                         uri: Option<string>, e: Option<JavaStackTraceElement>, location: Option<Location>)
    requires sr.javaMethod.Some?
    ensures Format(f, sr) == Format(g, sr.(uri := uri, javaStackTraceElement := e, location := location))
  {
  }

  /** The URI formatter is applied only in the URI branch: with a Java method
      or a stack-trace element present, any two formatters agree. */
  lemma UriFormatterOnlyForUri(f: string -> string, g: string -> string, sr: SourceReference)
    requires sr.javaMethod.Some? || sr.javaStackTraceElement.Some?
    ensures Format(f, sr) == Format(g, sr)
  {
  }

  /** In the URI branch the result is the formatted URI followed by the line
      suffix, which is empty without a location. */
  lemma UriBranch(f: string -> string, sr: SourceReference)
    requires sr.javaMethod.None? && sr.javaStackTraceElement.None? && sr.uri.Some?
    ensures var r := Format(f, sr).value;
      f(sr.uri.value) <= r && (sr.location.None? <==> r == f(sr.uri.value))
  {
    var r := Format(f, sr).value;
    assert r == f(sr.uri.value) + LineSuffix(sr.location);
    if sr.location.Some? {
      assert |r| > |f(sr.uri.value)|;
    }
  }
}
