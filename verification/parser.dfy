/**
 The ErrorMessageParser object (ErrorMessageParser.cs lines 37-75 and 110-137):
 its two constructors, the assembly of the per-failure records into
 ErrorMessage and ErrorStackTrace, and Parse, which also prefixes the output
 seen before the first failure.

 The object is an immutable value here; Parse returns the object as it is
 after the call, with the normalised leading text and the outputs set.
 */
module Parser {
  import opened Wrappers
  import opened Strings
  import opened Decimal
  import opened Paths
  import opened Patterns
  import opened Segmentation
  import opened StackTrace
  import opened Extraction

  /** The ErrorMessage and ErrorStackTrace properties. */
  datatype Output = Output(errorMessage: string, errorStackTrace: string)

  /** The fields of an ErrorMessageParser; `output` is None until Parse has run. */
  datatype ErrorMessageParser = ErrorMessageParser(
    errorMessages: seq<string>,
    outputBeforeFirstFailure: string,
    output: Option<Output>)

  /** Lines 43-46: the console output cut into failure texts. */
  function FromConsoleOutput(c: Config, consoleOutput: string): (p: ErrorMessageParser)
    requires ValidConfig(c)
    ensures p.output.None?
    ensures p.outputBeforeFirstFailure + Concat(p.errorMessages) == consoleOutput
    ensures consoleOutput == "" ==> p.errorMessages == [] && p.outputBeforeFirstFailure == ""
    ensures consoleOutput != "" && c.split(consoleOutput) == [] ==>
      p.errorMessages == [consoleOutput] && p.outputBeforeFirstFailure == ""
    ensures c.split(consoleOutput) != [] ==>
      var ms := c.split(consoleOutput);
      && |p.errorMessages| == |ms|
      && ms[0].index <= |consoleOutput|
      && p.outputBeforeFirstFailure == consoleOutput[..ms[0].index]
      && (forall i :: 0 <= i < |ms| ==> ms[i].value <= p.errorMessages[i])
      && IsOrderedIn(consoleOutput, ms)
      && (forall i :: 0 <= i < |ms| ==> p.errorMessages[i] == consoleOutput[ms[i].index..SegmentEnd(consoleOutput, ms, i)])
  {
    var ms := c.split(consoleOutput);
    SplitMatchesAreOrdered(consoleOutput, ms);
    var segments := SplitConsoleOutput(consoleOutput, ms);
    ErrorMessageParser(segments.failures, segments.leading, None)
  }

  /** Lines 48-51: the inner texts of the `<failure>` nodes, used as they are. */
  function FromFailureNodes(innerTexts: seq<string>): (p: ErrorMessageParser)
    ensures p.errorMessages == innerTexts
    ensures p.outputBeforeFirstFailure == "" && p.output.None?
  {
    ErrorMessageParser(innerTexts, "", None)
  }

  /** The number a failure gets: its 1-based position when there are at least two, else 0. */
  function MsgId(count: nat, i: nat): nat
  {
    if count >= 2 then i + 1 else 0
  }

  /** One record per failure text, in order. */
  function Records(c: Config, msgs: seq<string>): (rs: seq<FailureRecord>)
    requires ValidConfig(c)
    ensures |rs| == |msgs|
  {
    seq(|msgs|, i requires 0 <= i < |msgs| => CreateErrorMessageAndStacktrace(c, msgs[i], MsgId(|msgs|, i)))
  }

  /** Line 131: each message under its `#<n> - ` prefix. */
  function NumberedMessages(rs: seq<FailureRecord>): (ls: seq<string>)
    ensures |ls| == |rs|
    ensures forall i :: 0 <= i < |rs| ==> ls[i] == MsgReference(i + 1) + rs[i].message
  {
    seq(|rs|, i requires 0 <= i < |rs| => MsgReference(i + 1) + rs[i].message)
  }

  function StackTraces(rs: seq<FailureRecord>, newLine: string): (ts: seq<string>)
    ensures |ts| == |rs|
  {
    seq(|rs|, i requires 0 <= i < |rs| => Render(rs[i].entries, newLine))
  }

  /** The messages of the records, in order. */
  function Messages(rs: seq<FailureRecord>): (ms: seq<string>)
    ensures |ms| == |rs|
  {
    seq(|rs|, i requires 0 <= i < |rs| => rs[i].message)
  }

  /**
   Lines 110-118: the one failure is reported unnumbered. Without a location
   the text is the message and the stack trace is empty; with one, the stack
   trace opens with the `at file-name:line in file:line n` line of the
   location, and without a scoped trace that line is all of it.
   */
  function HandleSingleFailure(c: Config, errorMessage: string): (o: Output)
    requires ValidConfig(c)
    ensures c.parse(errorMessage).None? ==> o == Output(errorMessage, "")
    ensures c.parse(errorMessage).Some? ==>
      var m := c.parse(errorMessage).value;
      var stripped := Trim(RemoveAll(errorMessage, m.value));
      var primary := CreateStackTraceEntry(FileName(m.file) + ":" + LineNumber(m), m.file, LineNumber(m), c.newLine);
      && primary <= o.errorStackTrace
      && (!HasTraceStart(stripped) ==> o == Output(stripped, primary))
  {
    var r := CreateErrorMessageAndStacktrace(c, errorMessage, 0);
    var o := Output(r.message, Render(r.entries, c.newLine));
    if c.parse(errorMessage).Some? then
      var head, rest := EntryText(r.entries[0], c.newLine), Render(r.entries[1..], c.newLine);
      PrefixOfAppend(head, head, rest);
      assert r.entries[1..] == [] ==> rest == "" && head + rest == head;
      o
    else
      o
  }

  /**
   Lines 120-137: every failure is numbered from 1; the messages are joined with
   "\n", so the message has one line feed per gap besides those of the
   messages themselves; and the stack traces follow each other in failure order.
   */
  function HandleMultipleFailures(c: Config, msgs: seq<string>): (o: Output)
    requires ValidConfig(c)
    requires |msgs| >= 2
    ensures o.errorMessage == Join("\n", NumberedMessages(Records(c, msgs)))
    ensures Count(o.errorMessage, '\n') == |msgs| - 1 + CountAll(Messages(Records(c, msgs)), '\n')
    ensures o.errorStackTrace == Render(Flatten(Records(c, msgs)), c.newLine)
  {
    var rs := Records(c, msgs);
    ConcatStackTraces(rs, c.newLine);
    NumberedLineFeeds(rs);
    CountJoin(NumberedMessages(rs), '\n');
    Output(Join("\n", NumberedMessages(rs)), Concat(StackTraces(rs, c.newLine)))
  }

  /** The `#n - ` prefixes add no line feed. */
  lemma NumberedLineFeeds(rs: seq<FailureRecord>)
    ensures CountAll(NumberedMessages(rs), '\n') == CountAll(Messages(rs), '\n')
  {
    var ls, ms := NumberedMessages(rs), Messages(rs);
    forall i | 0 <= i < |rs|
      ensures Count(ls[i], '\n') == Count(ms[i], '\n')
    {
      var ref := MsgReference(i + 1);
      DigitsHaveNoMarks(NatToString(i + 1));
      assert '\n' !in ref;
      CountAppend(ref, rs[i].message, '\n');
    }
    CountAllPointwise(ls, ms, '\n');
  }

  /** Lines 55-67: the outputs by the number of failure texts. */
  function Assemble(c: Config, msgs: seq<string>): Output
    requires ValidConfig(c)
  {
    if |msgs| == 0 then Output("", "")
    else if |msgs| == 1 then HandleSingleFailure(c, msgs[0])
    else HandleMultipleFailures(c, msgs)
  }

  /** Lines 71-72: the leading text made to end with a line break. */
  function NormalizeLeading(t: string): (r: string)
    ensures EndsWith(r, "\n")
    ensures t <= r && |r| <= |t| + 1
    ensures EndsWith(t, "\n") ==> r == t
  {
    if !EndsWith(t, "\n") && !EndsWith(t, "\r\n") then t + "\n" else t
  }

  /** Lines 53-75. */
  function Parse(c: Config, p: ErrorMessageParser): (q: ErrorMessageParser)
    requires ValidConfig(c)
    ensures q.errorMessages == p.errorMessages
    ensures q.output.Some?
    ensures q.output.value.errorStackTrace == Assemble(c, p.errorMessages).errorStackTrace
    ensures p.outputBeforeFirstFailure == "" ==>
      q.outputBeforeFirstFailure == "" && q.output.value == Assemble(c, p.errorMessages)
    ensures p.outputBeforeFirstFailure != "" ==>
      && q.outputBeforeFirstFailure == NormalizeLeading(p.outputBeforeFirstFailure)
      && EndsWith(q.outputBeforeFirstFailure, "\n")
      && p.outputBeforeFirstFailure <= q.outputBeforeFirstFailure
      && |q.outputBeforeFirstFailure| <= |p.outputBeforeFirstFailure| + 1
      && q.output.value.errorMessage == q.outputBeforeFirstFailure + Assemble(c, p.errorMessages).errorMessage
  {
    var o := Assemble(c, p.errorMessages);
    if p.outputBeforeFirstFailure != "" then
      var before := NormalizeLeading(p.outputBeforeFirstFailure);
      ErrorMessageParser(p.errorMessages, before, Some(Output(before + o.errorMessage, o.errorStackTrace)))
    else
      ErrorMessageParser(p.errorMessages, p.outputBeforeFirstFailure, Some(o))
  }

  /** Calling Parse a second time changes nothing. */
  lemma ParseIdempotent(c: Config, p: ErrorMessageParser)
    requires ValidConfig(c)
    ensures Parse(c, Parse(c, p)) == Parse(c, p)
  {
    var q := Parse(c, p);
    if p.outputBeforeFirstFailure != "" {
      assert NormalizeLeading(q.outputBeforeFirstFailure) == q.outputBeforeFirstFailure;
    }
  }

  /** Empty console output gives an empty message and an empty stack trace. */
  lemma EmptyConsoleOutput(c: Config)
    requires ValidConfig(c)
    ensures Parse(c, FromConsoleOutput(c, "")).output == Some(Output("", ""))
  {
  }

  /** The `<failure>` texts are never cut or prefixed: each is one record of its own. */
  lemma ParseFailureNodes(c: Config, innerTexts: seq<string>)
    requires ValidConfig(c)
    ensures var q := Parse(c, FromFailureNodes(innerTexts));
      && q.errorMessages == innerTexts
      && q.output == Some(Assemble(c, innerTexts))
  {
  }

  /** All entries of the records, record after record. */
  function Flatten(rs: seq<FailureRecord>): seq<Entry>
  {
    if |rs| == 0 then [] else rs[0].entries + Flatten(rs[1..])
  }

  lemma {:induction false} ConcatStackTraces(rs: seq<FailureRecord>, newLine: string)
    ensures Concat(StackTraces(rs, newLine)) == Render(Flatten(rs), newLine)
    decreases |rs|
  {
    if |rs| > 0 {
      ConcatStackTraces(rs[1..], newLine);
      assert StackTraces(rs, newLine)[1..] == StackTraces(rs[1..], newLine);
      RenderAppend(rs[0].entries, Flatten(rs[1..]), newLine);
    }
  }

  /**
   No failure text is dropped or added: there is one record per text, numbered
   only when there are at least two; a single record is passed through
   unnumbered; and the stack trace is the records' entries in record order.
   */
  lemma AssemblyByCount(c: Config, msgs: seq<string>)
    requires ValidConfig(c)
    ensures var o, rs := Assemble(c, msgs), Records(c, msgs);
      && |rs| == |msgs|
      && (forall i :: 0 <= i < |msgs| ==>
            rs[i] == CreateErrorMessageAndStacktrace(c, msgs[i], if |msgs| >= 2 then i + 1 else 0))
      && (|msgs| == 0 ==> o == Output("", ""))
      && (|msgs| == 1 ==> o == Output(rs[0].message, Render(rs[0].entries, c.newLine)))
      && (|msgs| >= 2 ==> o.errorMessage == Join("\n", NumberedMessages(rs)))
      && o.errorStackTrace == Render(Flatten(rs), c.newLine)
  {
    var rs := Records(c, msgs);
    if |msgs| == 1 {
      assert rs[1..] == [];
      assert Flatten(rs) == rs[0].entries + [];
      assert rs[0].entries + [] == rs[0].entries;
    }
  }

  /**
   With two or more failures whose messages are single lines, the message has
   exactly one line per failure, the i-th starting with `#i - `.
   */
  lemma NumberedLines(c: Config, msgs: seq<string>)
    requires ValidConfig(c)
    requires |msgs| >= 2
    requires forall i :: 0 <= i < |msgs| ==> '\n' !in Records(c, msgs)[i].message
    ensures var lines := Split(Assemble(c, msgs).errorMessage, '\n');
      && |lines| == |msgs|
      && forall i :: 0 <= i < |msgs| ==>
           lines[i] == "#" + NatToString(i + 1) + " - " + Records(c, msgs)[i].message
  {
    var rs := Records(c, msgs);
    var ls := NumberedMessages(rs);
    forall i | 0 <= i < |ls|
      ensures '\n' !in ls[i]
    {
      DigitsHaveNoMarks(NatToString(i + 1));
    }
    SplitJoin(ls, '\n');
  }

  lemma {:induction false} FlattenSingleLine(rs: seq<FailureRecord>)
    requires forall i, k :: 0 <= i < |rs| && 0 <= k < |rs[i].entries| ==> IsSingleLine(rs[i].entries[k])
    ensures forall k :: 0 <= k < |Flatten(rs)| ==> IsSingleLine(Flatten(rs)[k])
    decreases |rs|
  {
    if |rs| > 0 {
      FlattenSingleLine(rs[1..]);
    }
  }

  /** With a newline of one line feed, the stack trace has exactly one line per entry. */
  lemma StackTraceLineCount(c: Config, msgs: seq<string>)
    requires ValidConfig(c)
    requires Count(c.newLine, '\n') == 1
    ensures Count(Assemble(c, msgs).errorStackTrace, '\n') == |Flatten(Records(c, msgs))|
  {
    var rs := Records(c, msgs);
    forall i | 0 <= i < |rs|
      ensures forall k :: 0 <= k < |rs[i].entries| ==> IsSingleLine(rs[i].entries[k])
    {
      ExtractedRecord(c, msgs[i], MsgId(|msgs|, i));
    }
    FlattenSingleLine(rs);
    AssemblyByCount(c, msgs);
    RenderLineFeeds(Flatten(rs), c.newLine);
  }
}
