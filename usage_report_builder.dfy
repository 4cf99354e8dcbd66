/** Builds the usage report from a finished test run: finished test steps are
    grouped by the step definition they unambiguously matched, in the order
    those definitions are first seen, step definitions that never matched are
    added as empty groups, and each group becomes one report entry. */
module UsageReportBuilder {
  import opened Wrappers
  import opened Strings
  import opened Messages
  import opened UsageReport
  import opened Durations
  import opened LinkedGroups
  import SourceReferenceFormatter

  /** A pickle (a compiled scenario): its URI, and its location when the query
      can find one. */
  datatype Pickle = Pickle(uri: string, location: Option<Location>)

  /** What the query answers about one `TestStepFinished` message. */
  datatype FinishedStep = FinishedStep(
    // findTestStepBy(..).flatMap(findUnambiguousStepDefinitionBy)
    definition: Option<StepDefinition>,
    // findTestStepBy(..).flatMap(findPickleStepBy), by its text
    pickleStepText: Option<string>,
    // findPickleBy(..), with findLocationOf(pickle)
    pickle: Option<Pickle>,
    // the test step result's duration
    duration: Duration)

  /** The query over a finished run: every finished test step and every step
      definition, each in message order. */
  datatype Query = Query(finished: seq<FinishedStep>, stepDefinitions: seq<StepDefinition>)

  /** `findLocationOf`: the formatted pickle URI and its line, or "" when
      the pickle is unknown. */
  function FindLocationOf(uriFormatter: string -> string, step: FinishedStep): (r: string)
    ensures step.pickle.None? ==> r == ""
    ensures step.pickle.Some? ==>
      && uriFormatter(step.pickle.value.uri) <= r
      && (step.pickle.value.location.None? <==> r == uriFormatter(step.pickle.value.uri))
  {
    match step.pickle
    case None => ""
    case Some(pickle) =>
      var suffix := SourceReferenceFormatter.LineSuffix(pickle.location);
      assert pickle.location.Some? ==> |suffix| > 0;
      uriFormatter(pickle.uri) + suffix
  }

  /** `createStepUsage()`: a usage with the pickle step's text, the step's
      location and its duration; when the pickle step cannot be found, a
      usage with empty text, zero duration and empty location. */
  function CreateStepUsage(uriFormatter: string -> string, step: FinishedStep): (r: FlatStepUsage)
    ensures step.pickleStepText.None? ==> r == FlatStepUsage("", Zero, "")
    ensures step.pickleStepText.Some? ==>
      r == FlatStepUsage(step.pickleStepText.value, step.duration, FindLocationOf(uriFormatter, step))
  {
    match step.pickleStepText
    case None => FlatStepUsage("", Zero, "")
    case Some(text) => FlatStepUsage(text, step.duration, FindLocationOf(uriFormatter, step))
  }

  function StepDurations(steps: seq<FlatStepUsage>): (r: seq<Duration>)
    ensures |r| == |steps|
    ensures forall i :: 0 <= i < |steps| ==> r[i] == steps[i].duration
  {
    seq(|steps|, i requires 0 <= i < |steps| => steps[i].duration)
  }

  /** `createStepDefinitionUsage`: the pattern source, the formatted source
      reference (or ""), the statistics of the steps' durations, and the steps;
      the statistics are absent exactly when there are no steps. */
  function CreateStepDefinitionUsage(uriFormatter: string -> string, definition: StepDefinition, steps: seq<FlatStepUsage>)
    : (r: FlatDefinitionUsage)
    ensures r.expression == definition.pattern.source
    ensures r.location == SourceReferenceFormatter.Format(uriFormatter, definition.sourceReference).GetOr("")
    ensures r.steps == steps
    ensures r.duration.None? <==> |steps| == 0
    ensures r.duration.Some? ==> r.duration.value.sum.TotalNanos() == SumNanos(StepDurations(steps))
  {
    FlatDefinitionUsage(
      definition.pattern.source,
      SourceReferenceFormatter.Format(uriFormatter, definition.sourceReference).GetOr(""),
      CreateStatistics(StepDurations(steps)),
      steps)
  }

  /** Each finished step keyed by its definition, with its usage. */
  function Pairs(uriFormatter: string -> string, finished: seq<FinishedStep>): (r: seq<(Option<StepDefinition>, FlatStepUsage)>)
    ensures |r| == |finished|
    ensures forall i :: 0 <= i < |finished| ==> r[i] == (finished[i].definition, CreateStepUsage(uriFormatter, finished[i]))
  {
    seq(|finished|, i requires 0 <= i < |finished| => (finished[i].definition, CreateStepUsage(uriFormatter, finished[i])))
  }

  /** The definitions the finished steps resolved to, in order, with repeats. */
  function Resolved(finished: seq<FinishedStep>): (r: seq<StepDefinition>)
  {
    Somes(seq(|finished|, i requires 0 <= i < |finished| => finished[i].definition))
  }

  /** The usages of the steps that resolved to `definition`, in order. */
  function StepsOf(uriFormatter: string -> string, finished: seq<FinishedStep>, definition: StepDefinition): seq<FlatStepUsage>
  {
    Select(Pairs(uriFormatter, finished), Some(definition))
  }

  /** The present values, in order: the `filter(isPresent)` of the entries. */
  function Somes<T>(xs: seq<Option<T>>): (r: seq<T>)
    ensures |r| <= |xs|
  {
    if |xs| == 0 then []
    else
      var rest := Somes(xs[..|xs| - 1]);
      match xs[|xs| - 1]
      case Some(v) => rest + [v]
      case None => rest
  }

  lemma {:induction false} SomesMembership<T>(xs: seq<Option<T>>, v: T)
    ensures v in Somes(xs) <==> Some(v) in xs
  {
    if |xs| > 0 {
      var p := xs[..|xs| - 1];
      SomesMembership(p, v);
      assert xs == p + [xs[|xs| - 1]];
    }
  }

  lemma SomesSnoc<T>(xs: seq<Option<T>>, x: Option<T>)
    ensures Somes(xs + [x]) == if x.Some? then Somes(xs) + [x.value] else Somes(xs)
  {
    assert (xs + [x])[..|xs|] == xs;
  }

  /** Keeping the present values commutes with keeping first occurrences. */
  lemma {:induction false} SomesDedup<T(!new)>(xs: seq<Option<T>>)
    ensures Somes(Dedup(xs)) == Dedup(Somes(xs))
  {
    if |xs| > 0 {
      var p, x := xs[..|xs| - 1], xs[|xs| - 1];
      assert xs == p + [x];
      SomesDedup(p);
      DedupSnoc(p, x);
      SomesSnoc(p, x);
      if x.Some? {
        SomesMembership(p, x.value);
        DedupSnoc(Somes(p), x.value);
        if x !in p {
          SomesSnoc(Dedup(p), x);
        }
      } else if x !in p {
        SomesSnoc(Dedup(p), x);
      }
    }
  }

  /** The keys each catalog definition is added under: `Optional.of`. */
  function Present(definitions: seq<StepDefinition>): (r: seq<Option<StepDefinition>>)
    ensures |r| == |definitions|
    ensures forall i :: 0 <= i < |r| ==> r[i] == Some(definitions[i])
  {
    seq(|definitions|, i requires 0 <= i < |definitions| => Some(definitions[i]))
  }

  lemma {:induction false} SomesPresent(definitions: seq<StepDefinition>)
    ensures Somes(Present(definitions)) == definitions
  {
    if |definitions| > 0 {
      var p := definitions[..|definitions| - 1];
      SomesPresent(p);
      assert Present(definitions) == Present(p) + [Some(definitions[|definitions| - 1])];
      SomesSnoc(Present(p), Some(definitions[|definitions| - 1]));
    }
  }

  lemma SomesAppend<T>(a: seq<Option<T>>, b: seq<Option<T>>)
    ensures Somes(a + b) == Somes(a) + Somes(b)
    decreases |b|
  {
    if |b| == 0 {
      assert a + b == a;
    } else {
      var b', x := b[..|b| - 1], b[|b| - 1];
      SomesAppend(a, b');
      assert a + b == (a + b') + [x];
      SomesSnoc(a + b', x);
      SomesSnoc(b', x);
      if x.Some? {
        AppendAssoc(Somes(a), Somes(b'), [x.value]);
      }
    }
  }

  /** The report entries, one for each present key, in key order, each with
      the list stored under it. */
  function Entries(uriFormatter: string -> string, keys: seq<Option<StepDefinition>>,
                   values: map<Option<StepDefinition>, seq<FlatStepUsage>>): (r: seq<FlatDefinitionUsage>)
    requires forall k :: k in keys ==> k in values
    ensures |r| == |Somes(keys)|
  {
    if |keys| == 0 then []
    else
      var k := keys[|keys| - 1];
      var rest := Entries(uriFormatter, keys[..|keys| - 1], values);
      match k
      case Some(d) => rest + [CreateStepDefinitionUsage(uriFormatter, d, values[k])]
      case None => rest
  }

  /** `build()`: the finished steps grouped by definition, the unused catalog
      definitions added with `computeIfAbsent` one by one, and one entry per
      present key. The entries are exactly the definitions in order of first
      appearance among resolved steps then catalog, each with the usages of
      the steps that resolved to it. */
  method Build(q: Query, uriFormatter: string -> string) returns (r: FlatReport)
    ensures var definitions := Dedup(Resolved(q.finished) + q.stepDefinitions);
      && |r.stepDefinitions| == |definitions|
      && forall i :: 0 <= i < |definitions| ==>
        r.stepDefinitions[i] == CreateStepDefinitionUsage(uriFormatter, definitions[i], StepsOf(uriFormatter, q.finished, definitions[i]))
  {
    var pairs := Pairs(uriFormatter, q.finished);
    var groups := GroupBy(pairs);
    GroupByGroups(pairs);
    var catalog := q.stepDefinitions;
    assert Keys(pairs) + Present(catalog[..0]) == Keys(pairs);
    var i := 0;
    while i < |catalog|
      invariant 0 <= i <= |catalog|
      invariant GroupsOf(groups, Keys(pairs) + Present(catalog[..i]), pairs)
    {
      AddUnusedStep(groups, pairs, catalog, i);
      groups := ComputeIfAbsent(groups, Some(catalog[i]));
      i := i + 1;
    }
    assert catalog[..i] == catalog;
    r := FlatReport(Entries(uriFormatter, groups.keys, groups.values));
    BuildResult(q, uriFormatter, pairs, groups);
  }

  /** One turn of the catalog loop keeps the grouping. */
  lemma AddUnusedStep(groups: Groups<Option<StepDefinition>, FlatStepUsage>, pairs: seq<(Option<StepDefinition>, FlatStepUsage)>,
                      catalog: seq<StepDefinition>, i: int)
    requires 0 <= i < |catalog|
    requires GroupsOf(groups, Keys(pairs) + Present(catalog[..i]), pairs)
    ensures GroupsOf(ComputeIfAbsent(groups, Some(catalog[i])), Keys(pairs) + Present(catalog[..i + 1]), pairs)
  {
    var seen := Keys(pairs) + Present(catalog[..i]);
    assert Present(catalog[..i + 1]) == Present(catalog[..i]) + [Some(catalog[i])];
    assert Keys(pairs) + Present(catalog[..i + 1]) == seen + [Some(catalog[i])];
    assert Some(catalog[i]) in Keys(pairs) ==> Some(catalog[i]) in seen;
    ComputeIfAbsentGroups(groups, seen, pairs, Some(catalog[i]));
  }

  lemma BuildResult(q: Query, uriFormatter: string -> string, pairs: seq<(Option<StepDefinition>, FlatStepUsage)>,
                    groups: Groups<Option<StepDefinition>, FlatStepUsage>)
    requires pairs == Pairs(uriFormatter, q.finished)
    requires GroupsOf(groups, Keys(pairs) + Present(q.stepDefinitions), pairs)
    ensures var definitions := Dedup(Resolved(q.finished) + q.stepDefinitions);
      var entries := Entries(uriFormatter, groups.keys, groups.values);
      && |entries| == |definitions|
      && forall i :: 0 <= i < |definitions| ==>
        entries[i] == CreateStepDefinitionUsage(uriFormatter, definitions[i], StepsOf(uriFormatter, q.finished, definitions[i]))
  {
    EntriesMeaning(uriFormatter, groups.keys, groups.values, pairs);
    assert Keys(pairs) == seq(|q.finished|, i requires 0 <= i < |q.finished| => q.finished[i].definition);
    KeysOrder(q.finished, q.stepDefinitions, Keys(pairs), Present(q.stepDefinitions));
  }

  lemma KeysOrder(finished: seq<FinishedStep>, catalog: seq<StepDefinition>, keys: seq<Option<StepDefinition>>, present: seq<Option<StepDefinition>>)
    requires keys == seq(|finished|, i requires 0 <= i < |finished| => finished[i].definition)
    requires present == Present(catalog)
    ensures Somes(Dedup(keys + present)) == Dedup(Resolved(finished) + catalog)
  {
    SomesDedup(keys + present);
    SomesAppend(keys, present);
    SomesPresent(catalog);
  }

  /** The entries are the present keys, each with the values it selects. */
  lemma {:induction false} EntriesMeaning(uriFormatter: string -> string, keys: seq<Option<StepDefinition>>,
                                          values: map<Option<StepDefinition>, seq<FlatStepUsage>>,
                                          pairs: seq<(Option<StepDefinition>, FlatStepUsage)>)
    requires forall k :: k in keys ==> k in values && values[k] == Select(pairs, k)
    ensures var ds := Somes(keys);
      forall i :: 0 <= i < |ds| ==>
        Entries(uriFormatter, keys, values)[i] == CreateStepDefinitionUsage(uriFormatter, ds[i], Select(pairs, Some(ds[i])))
  {
    if |keys| > 0 {
      var p, k := keys[..|keys| - 1], keys[|keys| - 1];
      assert keys == p + [k];
      EntriesMeaning(uriFormatter, p, values, pairs);
      SomesSnoc(p, k);
    }
  }

  /** Definitions that matched come first, in the order they were first
      matched; the catalog's unmatched definitions follow. */
  lemma MatchedDefinitionsFirst(q: Query)
    ensures var matched := Dedup(Resolved(q.finished));
      var definitions := Dedup(Resolved(q.finished) + q.stepDefinitions);
      && |matched| <= |definitions|
      && definitions[..|matched|] == matched
      && forall i :: |matched| <= i < |definitions| ==> definitions[i] in q.stepDefinitions && definitions[i] !in Resolved(q.finished)
  {
    var matched := Dedup(Resolved(q.finished));
    var definitions := Dedup(Resolved(q.finished) + q.stepDefinitions);
    DedupAppendPrefix(Resolved(q.finished), q.stepDefinitions);
    forall i | |matched| <= i < |definitions|
      ensures definitions[i] in q.stepDefinitions && definitions[i] !in Resolved(q.finished)
    {
      assert forall j :: 0 <= j < |matched| ==> matched[j] == definitions[j] != definitions[i];
      assert definitions[i] !in matched;
      assert definitions[i] in Resolved(q.finished) + q.stepDefinitions;
    }
  }

  /** A definition has no step usages exactly when no finished step resolved
      to it; its statistics are then absent. */
  lemma StepsOfEmpty(uriFormatter: string -> string, finished: seq<FinishedStep>, definition: StepDefinition)
    ensures StepsOf(uriFormatter, finished, definition) == [] <==> definition !in Resolved(finished)
    ensures CreateStepDefinitionUsage(uriFormatter, definition, StepsOf(uriFormatter, finished, definition)).duration.None?
      <==> definition !in Resolved(finished)
  {
    var pairs := Pairs(uriFormatter, finished);
    var keys := seq(|finished|, i requires 0 <= i < |finished| => finished[i].definition);
    assert Keys(pairs) == keys;
    SomesMembership(keys, definition);
    if Some(definition) in keys {
      SelectPresent(pairs, Some(definition));
    } else {
      SelectAbsent(pairs, Some(definition));
    }
  }

  /** Every definition in the catalog gets an entry, and every entry is for a
      definition that was matched or is in the catalog. */
  lemma CatalogCovered(q: Query, definition: StepDefinition)
    ensures definition in Dedup(Resolved(q.finished) + q.stepDefinitions)
      <==> definition in q.stepDefinitions || definition in Resolved(q.finished)
  {
  }

  /** The resolved definitions are those some finished step resolved to. */
  lemma ResolvedMembers(finished: seq<FinishedStep>, definition: StepDefinition)
    ensures definition in Resolved(finished) <==> exists f :: f in finished && f.definition == Some(definition)
  {
    var keys := seq(|finished|, i requires 0 <= i < |finished| => finished[i].definition);
    assert Resolved(finished) == Somes(keys);
    SomesMembership(keys, definition);
    if Some(definition) in keys {
      var i :| 0 <= i < |keys| && keys[i] == Some(definition);
      assert finished[i] in finished;
    }
    if f :| f in finished && f.definition == Some(definition) {
      var i :| 0 <= i < |finished| && finished[i] == f;
      assert keys[i] == Some(definition);
    }
  }
}
