# ErrorMessageParser in Dafny

A model of the error-message parser of the Google Test Adapter. The parser
takes the text Google Test writes for the failures of one test and produces
the two strings the adapter reports, ErrorMessage and ErrorStackTrace. The
text comes either as console output or as the inner texts of the `<failure>`
nodes of the XML report. The model covers these steps:

- **Segmentation** (`Segmentation`). The console output is cut at every match
  of SplitRegex, which is a location marker such as `c:\a\b.cc:10: error: ` or
  `c:\a\b.cc(10): error: `. The text before the first marker is set aside as
  the output before the first failure.
- **Extraction** (`Extraction`). For each raw failure text:
  - the ParseRegex marker becomes the primary stack-trace entry
    `at [#n - ]b.cc:10 in c:\a\b.cc:line 10`;
  - every occurrence of the marker text is deleted from the message, and the
    message is trimmed;
  - a `Google Test trace:` block is cut off the message and turned into one
    `-->…` entry per ScopedTraceRegex match.
- **Assembly** (`Parser`):
  - no failure gives empty outputs;
  - a single failure is passed through unnumbered;
  - two or more failures are numbered `#1 - `, `#2 - ` and so on, joined with
    "\n", and their stack traces are concatenated;
  - the output before the first failure is given a final line break and put in
    front of the message.
- **Supporting .NET behaviour**:
  - String.Trim, String.Replace(p, ""), String.Join and ordinal EndsWith
    (`Strings`);
  - Int32.ToString (`Decimal`);
  - Path.GetFileName and the invalid path characters (`Paths`);
  - the shapes of the four patterns (`Patterns`).

The three location and trace patterns are not re-implemented. A `Config`
holds them as matcher functions, together with Environment.NewLine.
`ValidConfig` states what every match record they return looks like. Each is
a piece of the searched text with a well-formed file path and line numeral in
its group values. A SplitRegex match then ends in `:? ` and an error tag, and
a ParseRegex match may end so or stop after the line number. A
ScopedTraceRegex match is `file(line): text`, with no line feed in the text.
ScopedTraceStartRegex (`Google Test trace:\s*`, case-insensitive) is
modelled exactly by `Patterns.MatchTraceStart`.

The parser object is a mutable class in the source. Here it is an immutable
value: `Parser.Parse` returns the object as it is after the call, with the
normalised leading text and both outputs set. `Scenarios` works through one
console output with a single failure from start to finish. It also shows
that `ValidConfig` can be met.

The marker is not removed as a span. `errorMessage.Replace(match.Value, "")`
deletes every occurrence of the marker text, including a later repetition of
it and the same characters inside a longer location on a later line
(`c:\a.cc:1` also eats the start of `c:\a.cc:10`). A reading that removes
only the matched span differs from the code here; the model follows the code
(`Strings.RemoveAll`, `Strings.RemoveAllAtLeftmost`,
`Scenarios.ReplaceDeletesEveryCopy`).

## Model

| member | source | states |
|---|---|---|
| Segmentation.SplitConsoleOutput | GoogleTestAdapter/Core/TestResults/ErrorMessageParser.cs:82-108 | Empty input gives no failure texts. Input with no SplitRegex match is one failure text with nothing before it. Otherwise there is one text per match: text i runs from match i to the next match (or to the end) and starts with the match. The leading text is everything before the first match. Every text is non-empty, and leading text followed by all the texts is exactly the input. |
| Segmentation.ConcatCut | GoogleTestAdapter/Core/TestResults/ErrorMessageParser.cs:97-105 | The segments from the k-th onwards, concatenated, are the input from match k to the end, so nothing is lost or duplicated between segments. |
| Segmentation.CutStartsWithMatch | GoogleTestAdapter/Core/TestResults/ErrorMessageParser.cs:99-101 | Every segment opens with the text of the match it was cut at. |
| Parser.FromConsoleOutput | GoogleTestAdapter/Core/TestResults/ErrorMessageParser.cs:43-46 | The object built from console output keeps the leading text and failure texts that rebuild the input, and has no outputs until Parse runs. With SplitRegex matches, there is one text per match. Text i runs from the start of match i to the start of match i+1, or to the end for the last match. The leading text is exactly the input before the first match. |
| Parser.ParseFailureNodes | GoogleTestAdapter/Core/TestResults/ErrorMessageParser.cs:48-51 | The `<failure>` inner texts are used as they are: one record each, and no leading text is added to the message. |
| Parser.FromFailureNodes | GoogleTestAdapter/Core/TestResults/ErrorMessageParser.cs:48-51 | The object built from `<failure>` nodes holds their inner texts as the failure texts, in order and uncut. It has no leading text and no outputs until Parse runs. |
| StackTrace.CreateStackTraceEntry | GoogleTestAdapter/Core/TestResults/ErrorMessageParser.cs:77-80 | A stack-trace line starts with `at `, ends with Environment.NewLine, and is exactly as long as the template's 13 fixed characters plus its three fields and the newline. |
| StackTrace.RenderShape | GoogleTestAdapter/Core/TestResults/ErrorMessageParser.cs:171 | The accumulated stack trace is empty exactly when there are no entries. Otherwise it starts with `at ` and ends with Environment.NewLine. |
| StackTrace.EntryLineFeeds | GoogleTestAdapter/Core/TestResults/ErrorMessageParser.cs:77-80 | An entry whose fields hold no line feed renders with exactly the line feeds of the newline. |
| StackTrace.RenderLineFeeds | GoogleTestAdapter/Core/TestResults/ErrorMessageParser.cs:165-171 | With a one-line-feed newline, a rendered list of single-line entries has exactly one line feed per entry. |
| StackTrace.RenderAppend | GoogleTestAdapter/Core/TestResults/ErrorMessageParser.cs:171 | Rendering two entry lists one after the other equals rendering their concatenation, which is what appending with `+=` does. |
| Extraction.LineNumberOfMatch | GoogleTestAdapter/Core/TestResults/ErrorMessageParser.cs:150-152 | The line number is the value of group 2 or of group 3, whichever took part in the match. It is a decimal numeral that follows the file in the `file:line` or `file(line):` syntax of the match. |
| Extraction.MsgReference | GoogleTestAdapter/Core/TestResults/ErrorMessageParser.cs:154 | Failure number 0 gives no prefix. Any other number gives `#`, a numeral without a leading zero that reads back as the number, and ` - `. |
| Extraction.PrimaryEntry | GoogleTestAdapter/Core/TestResults/ErrorMessageParser.cs:148-156 | The primary entry names the matched file and line number. Its caption starts with the `#id - ` reference and ends with `file-name:line`, and is exactly as long as the two together, so nothing lies between them. The caption is exactly `file-name:line` when the failure is unnumbered, and only then. |
| Extraction.TraceEntry | GoogleTestAdapter/Core/TestResults/ErrorMessageParser.cs:167-171 | A scoped-trace entry keeps the trace line's file and line number. Its caption is `-->` followed by the trace text with white space trimmed from both ends. |
| Extraction.PrimaryEntryShape | GoogleTestAdapter/Core/TestResults/ErrorMessageParser.cs:154-156 | The primary entry fits on one line, and its caption holds no `>`, so it can never be read as a `-->` trace entry. |
| Extraction.ExpandScopedTrace | GoogleTestAdapter/Core/TestResults/ErrorMessageParser.cs:159-173 | Without a `Google Test trace:` marker nothing changes. With one, the message becomes the trimmed text before the leftmost marker, and one entry per ScopedTraceRegex match in the text after the marker and its whitespace is appended, in match order. The earlier entries always stay in front. |
| Extraction.ExpandedMessage | GoogleTestAdapter/Core/TestResults/ErrorMessageParser.cs:159-163 | After the expansion the message holds no marker and is no longer than before. It stays trimmed if it was. |
| Extraction.ExpandedEntries | GoogleTestAdapter/Core/TestResults/ErrorMessageParser.cs:164-172 | The expansion keeps the given entries as a prefix. Every added entry is a single-line `-->` entry. |
| Extraction.CreateErrorMessageAndStacktrace | GoogleTestAdapter/Core/TestResults/ErrorMessageParser.cs:139-173 | Without a ParseRegex match the message is unchanged and the stack trace is empty. With one, the entries are the primary entry followed by the entries of the scoped-trace block of the stripped text. The stripped text has every copy of the match text removed and is trimmed. The primary entry names the matched file and line number, and its caption is `file-name:line`, prefixed with `#id - ` exactly when the failure is numbered. The message is the stripped text when it holds no `Google Test trace:` marker. Otherwise it is the trimmed text before the leftmost marker. |
| Extraction.ExtractedRecord | GoogleTestAdapter/Core/TestResults/ErrorMessageParser.cs:139-173 | All entries are single lines. With a match, the message is trimmed, has lost at least the marker's length, and holds no scoped-trace marker. Entry 0 is the only entry that is not a `-->` trace entry. |
| Parser.AssemblyByCount | GoogleTestAdapter/Core/TestResults/ErrorMessageParser.cs:55-67 | There is one record per failure text, in order. Records are numbered i+1 only when there are at least two. No text gives empty outputs, and one text gives that record's message and trace unnumbered. Two or more give the numbered messages joined with "\n". The stack trace is always the records' entries rendered in record order. |
| Parser.HandleSingleFailure | GoogleTestAdapter/Core/TestResults/ErrorMessageParser.cs:110-118 | A single failure without a location is reported as it is, with an empty stack trace. With a location, the stack trace starts with the unnumbered `at file-name:line in file:line n` line. Without a scoped trace, the message is the stripped text and that line is the whole stack trace. |
| Parser.HandleMultipleFailures | GoogleTestAdapter/Core/TestResults/ErrorMessageParser.cs:120-137 | The message is the failures' messages, each under its `#i - ` prefix, joined with "\n". It therefore holds one line feed per gap besides those of the messages themselves. The stack trace is all entries of all failures rendered in failure order. |
| Parser.NumberedLineFeeds | GoogleTestAdapter/Core/TestResults/ErrorMessageParser.cs:131 | The `#i - ` prefixes add no line feed to the messages. |
| Parser.NumberedLines | GoogleTestAdapter/Core/TestResults/ErrorMessageParser.cs:120-137 | With two or more failures whose messages are single lines, splitting ErrorMessage at "\n" gives exactly one line per failure, the i-th being `#i - ` and that failure's message. |
| Parser.StackTraceLineCount | GoogleTestAdapter/Core/TestResults/ErrorMessageParser.cs:120-137 | With a one-line-feed newline, ErrorStackTrace has exactly one line per stack-trace entry of all failures. |
| Parser.ConcatStackTraces | GoogleTestAdapter/Core/TestResults/ErrorMessageParser.cs:136 | Joining the per-failure stack traces with "" is rendering all their entries in failure order. |
| Parser.NormalizeLeading | GoogleTestAdapter/Core/TestResults/ErrorMessageParser.cs:71-72 | The leading text is made to end with "\n" by appending at most one "\n" to it. Text that already ends with "\n" is left alone. |
| Parser.Parse | GoogleTestAdapter/Core/TestResults/ErrorMessageParser.cs:53-75 | Parse sets both outputs and keeps the failure texts. The stack trace is the assembled one. With no leading text the message is the assembled one. Otherwise the leading text becomes NormalizeLeading of itself, which ends in exactly the "\n" it had or one appended "\n", and is put in front of the assembled message. |
| Parser.ParseIdempotent | GoogleTestAdapter/Core/TestResults/ErrorMessageParser.cs:53-75 | Calling Parse a second time changes nothing. |
| Parser.EmptyConsoleOutput | GoogleTestAdapter/Core/TestResults/ErrorMessageParser.cs:84-85 | Empty console output has no failure texts, so Parse gives an empty message and an empty stack trace. |
| Strings.Trim | GoogleTestAdapter/Core/TestResults/ErrorMessageParser.cs:157 | The result is an infix of the input whose removed ends are all white space and which neither starts nor ends with white space. |
| Strings.TrimIdempotent | GoogleTestAdapter/Core/TestResults/ErrorMessageParser.cs:163 | Trimming a trimmed message again changes nothing. |
| Strings.RemoveAll | GoogleTestAdapter/Core/TestResults/ErrorMessageParser.cs:157 | Removing every occurrence of the marker shortens the text by at least the marker's length when it occurs, and leaves it unchanged when it does not. Every character of the result occurs in the input. |
| Strings.RemoveAllUnchanged | GoogleTestAdapter/Core/TestResults/ErrorMessageParser.cs:157 | The replacement leaves the text unchanged exactly when the marker text does not occur in it. |
| Strings.RemoveAllAtLeftmost | GoogleTestAdapter/Core/TestResults/ErrorMessageParser.cs:157 | The text before the leftmost occurrence is kept as it is, that occurrence is deleted, and removal goes on in the rest. Applied repeatedly, this says every occurrence is deleted, scanning left to right without overlap, as String.Replace does. |
| Strings.RemoveAllSkipsPrefix | GoogleTestAdapter/Core/TestResults/ErrorMessageParser.cs:157 | When no occurrence starts inside the prefix, the prefix is kept and the occurrence right after it is deleted. |
| Strings.SplitJoin | GoogleTestAdapter/Core/TestResults/ErrorMessageParser.cs:135 | Joining pieces that hold no line feed with "\n" can be split back into exactly those pieces. |
| Strings.CountJoin | GoogleTestAdapter/Core/TestResults/ErrorMessageParser.cs:135 | Joining n pieces with a one-character separator adds exactly n-1 copies of it to those already in the pieces. |
| Strings.ConcatIsJoin | GoogleTestAdapter/Core/TestResults/ErrorMessageParser.cs:136 | Concatenating the pieces is String.Join with the empty separator. |
| Decimal.ValueOfNatToString | GoogleTestAdapter/Core/TestResults/ErrorMessageParser.cs:131 | The numeral written for a failure number reads back as that number. |
| Decimal.NatToString | GoogleTestAdapter/Core/TestResults/ErrorMessageParser.cs:131 | Int32.ToString of a failure number is a non-empty string of digits, with a leading zero only for 0. |
| Decimal.NatToStringInjective | GoogleTestAdapter/Core/TestResults/ErrorMessageParser.cs:154 | Distinct failure numbers get distinct `#n - ` references. |
| Paths.FileName | GoogleTestAdapter/Core/TestResults/ErrorMessageParser.cs:149 | Path.GetFileName returns the longest suffix of the path that holds no `\`, `/` or `:`. It is preceded by a separator whenever it is not the whole path. |
| Paths.FileNameAfterSeparator | GoogleTestAdapter/Core/TestResults/ErrorMessageParser.cs:149 | The file name is exactly the text after the last separator. |
| Patterns.MatchTraceStart | GoogleTestAdapter/Core/TestResults/ErrorMessageParser.cs:33-34 | ScopedTraceStartRegex matches exactly when the text contains `Google Test trace:` in any ASCII case. The match is at the leftmost occurrence and covers the whole run of white space after it. |
| Patterns.SplitMatchesAreOrdered | GoogleTestAdapter/Core/TestResults/ErrorMessageParser.cs:87-105 | SplitRegex matches are non-empty pieces of the text in increasing, non-overlapping order, which is what cutting the text at them relies on. |
| Scenarios.ReplaceDeletesEveryCopy | GoogleTestAdapter/Core/TestResults/ErrorMessageParser.cs:157 | Removing the marker `c:\a.cc:1` from the two lines `c:\a.cc:1` and `c:\a.cc:10` leaves "\n" followed by `0`. Every copy goes, even inside a longer location. |
| Scenarios.SingleFailureScenario | GoogleTestAdapter/Core/TestResults/ErrorMessageParser.cs:53-80 | The console output `c:\a\b.cc:10: error: boom` gives the message `boom` and the stack trace `at b.cc:10 in c:\a\b.cc:line 10` plus the newline. |

## Left out

- The .NET regular-expression engine. SplitRegex, ParseRegex and ScopedTraceRegex are matcher parameters. `ValidConfig` states only the shape of what they return. It does not state that ParseRegex finds the leftmost match, that Regex.Matches finds every match, or how backtracking sizes the greedy `file` group.
- Extraction.CreateErrorMessageAndStacktrace: it does not promise that a segment cut by SplitRegex always yields a stack-trace entry, because that depends on ParseRegex matching again inside the segment, and the engine is not modelled.
- Patterns.ValidConfig: it allows a ParseRegex match to stop before an error tag that follows it. The real optional group is greedy and would take the tag.
- RegexOptions.IgnoreCase folds only the ASCII letters here. Culture-specific case mappings of other characters are not modelled.
- Path.GetInvalidPathChars and Path.GetInvalidFileNameChars are fixed to the .NET Framework's Windows tables. The `file` pattern uses the intersection of the two, which is `"`, `<`, `>`, `|` and U+0000 to U+001F.
- Environment.NewLine is a `Config` parameter instead of a host setting.
- XmlNodeList and XmlNode.InnerText are not modelled. The constructor receives the inner texts directly, as a sequence of strings.
- A null console output cannot be represented. It is treated like the empty string, which is what `string.IsNullOrEmpty` does for both.
- Parser.NormalizeLeading compares ordinally. The culture-sensitive String.EndsWith(string) of the source could treat some ignorable characters differently. Under ordinal comparison the `"\r\n"` test is implied by the `"\n"` test, and it is kept only for fidelity.
- The mutable properties ErrorMessage and ErrorStackTrace are not modelled as state. The parser is a value, and Parse returns the updated value.
- The static constructor that builds the Regex objects at run time, and RegexOptions.Compiled, are not modelled. Only the patterns' meaning is kept.
- Int32 overflow of the failure number is not modelled: the count of failures is a `nat`.
