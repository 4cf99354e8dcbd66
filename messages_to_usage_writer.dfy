/** The writer that collects the messages of a test run and, when it is
    closed, builds the usage report and hands it to a serializer, once. The
    message repository and its query are stood for by the sequence of
    messages received and a function reading a `Query` off it; the output
    stream is a string with a closed flag. */
module MessagesToUsageWriter {
  import opened Wrappers
  import opened Strings
  import opened Messages
  import opened UsageReport
  import opened LinkedGroups
  import opened UsageReportBuilder
  import UsageReportPlainTextSerializer

  /** The messages the usage report reads. Every other kind of message is
      kept by the repository but never looked at. */
  datatype Envelope =
    | StepDefinitionMessage(definition: StepDefinition)
    | TestStepFinishedMessage(stepDefinitionIds: seq<string>, pickleStepText: Option<string>,
                              pickle: Option<Pickle>, duration: Duration)
    | OtherMessage

  /** The step definitions received, in message order. */
  function Definitions(envelopes: seq<Envelope>): (r: seq<StepDefinition>)
    ensures |r| <= |envelopes|
    ensures forall d :: d in r <==> StepDefinitionMessage(d) in envelopes
  {
    if |envelopes| == 0 then []
    else
      var init := envelopes[..|envelopes| - 1];
      var last := envelopes[|envelopes| - 1];
      assert envelopes == init + [last];
      Definitions(init) + if last.StepDefinitionMessage? then [last.definition] else []
  }

  /** The first stored definition with this id. */
  function FindDefinition(definitions: seq<StepDefinition>, id: string): (r: Option<StepDefinition>)
    ensures r.Some? ==> r.value in definitions && r.value.id == id
    ensures r.None? ==> forall d :: d in definitions ==> d.id != id
  {
    if |definitions| == 0 then None
    else if definitions[0].id == id then Some(definitions[0])
    else FindDefinition(definitions[1..], id)
  }

  /** The definition a test step unambiguously matched: the one definition
      whose id it names, when it names exactly one. */
  function Unambiguous(definitions: seq<StepDefinition>, ids: seq<string>): (r: Option<StepDefinition>)
    ensures r.Some? ==> |ids| == 1 && r.value in definitions && r.value.id == ids[0]
    ensures |ids| == 1 && (exists d :: d in definitions && d.id == ids[0]) ==> r.Some?
  {
    if |ids| == 1 then FindDefinition(definitions, ids[0]) else None
  }

  /** The finished test steps, in message order, each resolved against all
      the definitions the run declared. */
  function Finished(envelopes: seq<Envelope>, definitions: seq<StepDefinition>): (r: seq<FinishedStep>)
    ensures |r| <= |envelopes|
    ensures forall f :: f in r && f.definition.Some? ==> f.definition.value in definitions
  {
    if |envelopes| == 0 then []
    else
      var rest := Finished(envelopes[..|envelopes| - 1], definitions);
      match envelopes[|envelopes| - 1]
      case TestStepFinishedMessage(ids, text, pickle, duration) =>
        rest + [FinishedStep(Unambiguous(definitions, ids), text, pickle, duration)]
      case _ => rest
  }

  /** What the query answers once every message has been stored. */
  function QueryOf(envelopes: seq<Envelope>): Query
  {
    var definitions := Definitions(envelopes);
    Query(Finished(envelopes, definitions), definitions)
  }

  /** The report `build()` makes of a query: one entry per definition, in
      order of first use then declaration, each with its steps. */
  function ReportOf(q: Query, uriFormatter: string -> string): FlatReport
  {
    var definitions := Dedup(Resolved(q.finished) + q.stepDefinitions);
    FlatReport(seq(|definitions|, i requires 0 <= i < |definitions| =>
      CreateStepDefinitionUsage(uriFormatter, definitions[i], StepsOf(uriFormatter, q.finished, definitions[i]))))
  }

  /** What a serializer does with the report: the text it gets onto the
      stream, and the message of the I/O error that stopped it, if one did. */
  datatype Written = Written(text: string, error: Option<string>)

  /** A table serializer as the writer's serializer: it writes the whole
      table and does not fail. */
  function TableSerializer(config: UsageReportPlainTextSerializer.Config, lineSep: string): FlatReport -> Written
  {
    report => Written(UsageReportPlainTextSerializer.Serialize(config, report, lineSep), None)
  }

  class Writer {
    /** The messages stored in the repository. */
    var envelopes: seq<Envelope>
    /** What reached the output stream. */
    var output: string
    var sinkClosed: bool
    var streamClosed: bool
    /** The reports handed to the serializer. */
    ghost var serialized: seq<FlatReport>
    const serializer: FlatReport -> Written
    const uriFormatter: string -> string

    /** The report the messages stored so far make. */
    function Report(): FlatReport
      reads this
    {
      ReportOf(QueryOf(envelopes), uriFormatter)
    }

    /** Open, nothing has been written or serialized; closed, the stream is
      closed too and the report of the stored messages was serialized
      exactly once, its text being all the output. */
    ghost predicate Valid()
      reads this
    {
      && sinkClosed == streamClosed
      && (!streamClosed ==> output == "" && serialized == [])
      && (streamClosed ==> serialized == [Report()] && output == serializer(Report()).text)
    }

    constructor(serializer: FlatReport -> Written, uriFormatter: string -> string)
      ensures Valid()
      ensures envelopes == [] && output == "" && !streamClosed
      ensures this.serializer == serializer && this.uriFormatter == uriFormatter
    {
      envelopes := [];
      output := "";
      sinkClosed := false;
      streamClosed := false;
      serialized := [];
      this.serializer := serializer;
      this.uriFormatter := uriFormatter;
    }

    /** `write`: fails with "Stream closed" once closed; otherwise only
      stores the message, writing nothing. */
    method Write(envelope: Envelope) returns (r: Outcome<string>)
      requires Valid()
      modifies this
      ensures Valid()
      ensures old(streamClosed) ==> r == Fail("Stream closed") && unchanged(this)
      ensures !old(streamClosed) ==>
        && r == Pass && envelopes == old(envelopes) + [envelope]
        && output == old(output) && !streamClosed && serialized == old(serialized)
    {
      if streamClosed {
        return Fail("Stream closed");
      }
      envelopes := envelopes + [envelope];
      r := Pass;
    }

    /** `close`: a no-op once closed. Otherwise the report is built and
      serialized, and then the stream is closed and the writer marked closed
      whether or not the serializer failed; its failure is passed on. */
    method Close() returns (r: Outcome<string>)
      requires Valid()
      modifies this
      ensures Valid() && streamClosed && sinkClosed
      ensures old(streamClosed) ==> r == Pass && unchanged(this)
      ensures !old(streamClosed) ==> var written := serializer(old(Report()));
        && envelopes == old(envelopes)
        && serialized == old(serialized) + [old(Report())]
        && output == old(output) + written.text
        && (r == Pass <==> written.error.None?)
        && (written.error.Some? ==> r == Fail(written.error.value))
    {
      if streamClosed {
        return Pass;
      }
      var report := Build(QueryOf(envelopes), uriFormatter);
      assert report == Report();
      var written := serializer(report);
      serialized := serialized + [report];
      output := output + written.text;
      sinkClosed := true;
      streamClosed := true;
      r := if written.error.Some? then Fail(written.error.value) else Pass;
    }
  }

  /** `MessagesToUsageWriter.Builder`. */
  class Builder {
    const serializer: FlatReport -> Written
    var uriFormatter: string -> string

    /** The URI formatter starts as the identity. */
    constructor(serializer: FlatReport -> Written)
      ensures this.serializer == serializer
      ensures forall s :: uriFormatter(s) == s
    {
      this.serializer := serializer;
      uriFormatter := s => s;
    }

    /** `removeUriPrefix`: locations lose the prefix when they start with it. */
    method RemoveUriPrefix(prefix: string)
      modifies this
      ensures forall s :: uriFormatter(s) == RemovePrefix(prefix, s)
    {
      uriFormatter := s => RemovePrefix(prefix, s);
    }

    method Build() returns (w: Writer)
      ensures fresh(w) && w.Valid()
      ensures w.envelopes == [] && w.output == "" && !w.streamClosed
      ensures w.serializer == serializer && w.uriFormatter == uriFormatter
    {
      w := new Writer(serializer, uriFormatter);
    }
  }

  /** Writing to a closed writer fails with "Stream closed". */
  method WriteAfterClose(serializer: FlatReport -> Written, uriFormatter: string -> string, envelope: Envelope)
    returns (r: Outcome<string>)
    ensures r == Fail("Stream closed")
  {
    var w := new Writer(serializer, uriFormatter);
    var _ := w.Close();
    r := w.Write(envelope);
  }

  /** A whole run: every message written, then the writer closed twice. The
      output is the serializer's text for the report of all the messages,
      and the second close adds nothing and reports no error. */
  method Run(serializer: FlatReport -> Written, uriFormatter: string -> string, envelopes: seq<Envelope>)
    returns (output: string, second: Outcome<string>)
    ensures output == serializer(ReportOf(QueryOf(envelopes), uriFormatter)).text
    ensures second == Pass
  {
    var w := new Writer(serializer, uriFormatter);
    var i := 0;
    while i < |envelopes|
      invariant 0 <= i <= |envelopes|
      invariant w.Valid() && !w.streamClosed
      invariant w.envelopes == envelopes[..i]
      invariant w.serializer == serializer && w.uriFormatter == uriFormatter
    {
      var _ := w.Write(envelopes[i]);
      i := i + 1;
    }
    assert envelopes[..i] == envelopes;
    var _ := w.Close();
    second := w.Close();
    output := w.output;
  }

  /** Messages of other kinds change nothing in the report. */
  lemma OtherMessagesIgnored(envelopes: seq<Envelope>)
    ensures QueryOf(envelopes + [OtherMessage]) == QueryOf(envelopes)
  {
    var e := envelopes + [OtherMessage];
    assert e[..|e| - 1] == envelopes;
    assert Definitions(e) == Definitions(envelopes);
    assert Finished(e, Definitions(envelopes)) == Finished(envelopes, Definitions(envelopes));
  }

  /** No step definition message, no step definitions. */
  lemma {:induction false} NoDefinitions(envelopes: seq<Envelope>)
    requires forall e :: e in envelopes ==> !e.StepDefinitionMessage?
    ensures Definitions(envelopes) == []
  {
    if |envelopes| > 0 {
      var init := envelopes[..|envelopes| - 1];
      assert forall e :: e in init ==> e in envelopes;
      NoDefinitions(init);
      assert envelopes[|envelopes| - 1] in envelopes;
    }
  }

  /** A run that declares no step definitions has an empty report, and a
      table serializer writes nothing for it. */
  lemma EmptyRun(envelopes: seq<Envelope>, uriFormatter: string -> string,
                 config: UsageReportPlainTextSerializer.Config, lineSep: string)
    requires forall e :: e in envelopes ==> !e.StepDefinitionMessage?
    ensures ReportOf(QueryOf(envelopes), uriFormatter).stepDefinitions == []
    ensures TableSerializer(config, lineSep)(ReportOf(QueryOf(envelopes), uriFormatter)) == Written("", None)
  {
    var q := QueryOf(envelopes);
    NoDefinitions(envelopes);
    var resolved := Resolved(q.finished);
    if |resolved| > 0 {
      ResolvedMembers(q.finished, resolved[0]);
    }
    assert resolved + q.stepDefinitions == [];
  }
}
