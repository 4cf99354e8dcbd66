/** The listing of step definitions that no step used: a count line, then
    one "location # expression" line per unused definition in report order,
    framed by the line separator. No table and no padding. */
module UnusedReportSerializer {
  import opened Strings
  import opened UsageReport
  import opened TableFormatter

  predicate IsUnused(d: FlatDefinitionUsage)
  {
    |d.steps| == 0
  }

  /** The `filter` of `format`: the definitions with no steps, in report
      order. */
  function Unused(definitions: seq<FlatDefinitionUsage>): (u: seq<FlatDefinitionUsage>)
    ensures |u| <= |definitions|
  {
    if |definitions| == 0 then []
    else
      var last := definitions[|definitions| - 1];
      Unused(definitions[..|definitions| - 1]) + if IsUnused(last) then [last] else []
  }

  /** The count line, present even when nothing is unused. */
  function HeaderLine(n: nat): string
  {
    IntToString(n) + " unused step definition:"
  }

  function EntryLine(d: FlatDefinitionUsage): string
  {
    d.location + " # " + d.expression
  }

  /** The lines given to the `StringJoiner`: the count line, then one line
      per unused definition. */
  function Lines(definitions: seq<FlatDefinitionUsage>): (lines: seq<string>)
    ensures |lines| == 1 + |Unused(definitions)|
  {
    var u := Unused(definitions);
    [HeaderLine(|u|)] + seq(|u|, i requires 0 <= i < |u| => EntryLine(u[i]))
  }

  /** What `format` returns: the lines joined and framed by the line
      separator. */
  function UnusedText(report: FlatReport, lineSep: string): string
  {
    lineSep + Join(Lines(report.stepDefinitions), lineSep) + lineSep
  }

  /** `format`: the filter, then the joiner fed the count line and each
      unused definition's line. */
  method Format(report: FlatReport, lineSep: string) returns (text: string)
    ensures text == UnusedText(report, lineSep)
  {
    var definitions := report.stepDefinitions;
    var unused := FilterUnused(definitions);
    ghost var lines := Lines(definitions);
    var joined := HeaderLine(|unused|);
    JoinStep(lines, 0, lineSep);
    var k := 0;
    while k < |unused|
      invariant 0 <= k <= |unused|
      invariant joined == Join(lines[..k + 1], lineSep)
    {
      JoinStep(lines, k + 1, lineSep);
      joined := joined + lineSep + EntryLine(unused[k]);
      k := k + 1;
    }
    assert lines[..k + 1] == lines;
    text := lineSep + joined + lineSep;
  }

  /** The stream `filter` as a loop over the report's definitions. */
  method FilterUnused(definitions: seq<FlatDefinitionUsage>) returns (unused: seq<FlatDefinitionUsage>)
    ensures unused == Unused(definitions)
  {
    unused := [];
    var i := 0;
    while i < |definitions|
      invariant 0 <= i <= |definitions|
      invariant unused == Unused(definitions[..i])
    {
      assert definitions[..i + 1][..i] == definitions[..i];
      if IsUnused(definitions[i]) {
        unused := unused + [definitions[i]];
      }
      i := i + 1;
    }
    assert definitions[..i] == definitions;
  }

  /** Exactly the definitions without steps are listed. */
  lemma {:induction false} UnusedMembers(definitions: seq<FlatDefinitionUsage>, d: FlatDefinitionUsage)
    ensures d in Unused(definitions) <==> d in definitions && IsUnused(d)
  {
    if |definitions| > 0 {
      var init := definitions[..|definitions| - 1];
      UnusedMembers(init, d);
      assert definitions == init + [definitions[|definitions| - 1]];
    }
  }

  /** The listing keeps report order: the unused definitions of a report in
      two parts are those of the first part, then those of the second. */
  lemma {:induction false} UnusedAppend(a: seq<FlatDefinitionUsage>, b: seq<FlatDefinitionUsage>)
    ensures Unused(a + b) == Unused(a) + Unused(b)
  {
    if |b| > 0 {
      var init := b[..|b| - 1];
      var last := b[|b| - 1];
      assert (a + b)[..|a + b| - 1] == a + init;
      UnusedAppend(a, init);
      AppendAssoc(Unused(a), Unused(init), if IsUnused(last) then [last] else []);
    } else {
      assert a + b == a;
    }
  }

  /** Nothing is listed when every definition was used. */
  lemma AllUsed(definitions: seq<FlatDefinitionUsage>)
    requires forall d :: d in definitions ==> !IsUnused(d)
    ensures Unused(definitions) == []
  {
    var u := Unused(definitions);
    if |u| > 0 {
      UnusedMembers(definitions, u[0]);
    }
  }

  /** When every definition was used, the listing is the count line "0
      unused step definition:" alone. */
  lemma NothingUnused(report: FlatReport, lineSep: string)
    requires forall d :: d in report.stepDefinitions ==> !IsUnused(d)
    ensures UnusedText(report, lineSep) == lineSep + "0 unused step definition:" + lineSep
  {
    AllUsed(report.stepDefinitions);
    assert Lines(report.stepDefinitions) == [HeaderLine(0)];
    assert NatToString(0) == "0";
  }

  /** The first line counts the unused definitions, and line `1 + i` names
      the `i`-th of them by location and expression. */
  lemma ListedLines(definitions: seq<FlatDefinitionUsage>, i: nat)
    requires i < |Unused(definitions)|
    ensures var lines := Lines(definitions);
      var u := Unused(definitions);
      && lines[0] == IntToString(|u|) + " unused step definition:"
      && lines[1 + i] == u[i].location + " # " + u[i].expression
      && IsUnused(u[i]) && u[i] in definitions
  {
    UnusedMembers(definitions, Unused(definitions)[i]);
  }

  /** The count line reads back as the count it was made from. */
  lemma HeaderReadsBack(n: nat)
    ensures var h := HeaderLine(n);
      var t := h[..|h| - |" unused step definition:"|];
      |t| >= 1 && AllDigits(t) && ParseInt(t) == n
  {
    var h := HeaderLine(n);
    IntToStringRoundTrip(n);
    assert h[..|h| - |" unused step definition:"|] == IntToString(n);
  }
}
