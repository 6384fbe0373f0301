/**
 Stack-trace lines (CreateStackTraceEntry, ErrorMessageParser.cs lines 77-80).
 A failure's stack trace is kept as its list of entries; the string that
 CreateErrorMessageAndStacktrace accumulates is that list rendered entry after
 entry.
 */
module StackTrace {
  import opened Strings

  /** One `at <caption> in <file>:line <line>` line before it is rendered. */
  datatype Entry = Entry(caption: string, file: string, line: string)

  /** The fixed template of one stack-trace line, closed by `newLine` (Environment.NewLine). */
  function CreateStackTraceEntry(caption: string, fullFileName: string, lineNumber: string, newLine: string): (r: string)
    ensures "at " <= r
    ensures EndsWith(r, newLine)
    ensures |r| == 13 + |caption| + |fullFileName| + |lineNumber| + |newLine|
  {
    "at " + caption + " in " + fullFileName + ":line " + lineNumber + newLine
  }

  function EntryText(e: Entry, newLine: string): string
  {
    CreateStackTraceEntry(e.caption, e.file, e.line, newLine)
  }

  /** The entries' lines one after the other, with no separator. */
  function Render(es: seq<Entry>, newLine: string): string
  {
    if |es| == 0 then "" else EntryText(es[0], newLine) + Render(es[1..], newLine)
  }

  /** The rendered trace is empty only without entries; otherwise it starts with `at ` and ends with the newline. */
  lemma {:induction false} RenderShape(es: seq<Entry>, newLine: string)
    ensures Render(es, newLine) == "" <==> es == []
    ensures es != [] ==> "at " <= Render(es, newLine) && EndsWith(Render(es, newLine), newLine)
  {
    if es != [] {
      var head, rest := EntryText(es[0], newLine), Render(es[1..], newLine);
      PrefixOfAppend("at ", head, rest);
      if |es| == 1 {
        assert head + rest == head;
      } else {
        RenderShape(es[1..], newLine);
        EndsWithPrepend(head, rest, newLine);
      }
    }
  }

  lemma {:induction false} RenderAppend(a: seq<Entry>, b: seq<Entry>, newLine: string)
    ensures Render(a + b, newLine) == Render(a, newLine) + Render(b, newLine)
    decreases |a|
  {
    if |a| == 0 {
      assert a + b == b;
    } else {
      RenderAppend(a[1..], b, newLine);
      assert (a + b)[0] == a[0] && (a + b)[1..] == a[1..] + b;
      AppendAssociative(EntryText(a[0], newLine), Render(a[1..], newLine), Render(b, newLine));
    }
  }

  /** No field of the entry can break its line. */
  predicate IsSingleLine(e: Entry)
  {
    '\n' !in e.caption && '\n' !in e.file && '\n' !in e.line
  }

  /** An entry without line feeds in its fields has exactly the line feeds of its terminator. */
  lemma EntryLineFeeds(e: Entry, newLine: string)
    requires IsSingleLine(e)
    ensures Count(EntryText(e, newLine), '\n') == Count(newLine, '\n')
  {
    var body := "at " + e.caption + " in " + e.file + ":line " + e.line;
    assert EntryText(e, newLine) == body + newLine;
    assert '\n' !in body;
    CountAppend(body, newLine, '\n');
  }

  /** With a one-line-feed terminator, the rendered trace has one line feed per entry. */
  lemma {:induction false} RenderLineFeeds(es: seq<Entry>, newLine: string)
    requires forall i :: 0 <= i < |es| ==> IsSingleLine(es[i])
    requires Count(newLine, '\n') == 1
    ensures Count(Render(es, newLine), '\n') == |es|
    decreases |es|
  {
    if |es| > 0 {
      EntryLineFeeds(es[0], newLine);
      RenderLineFeeds(es[1..], newLine);
      CountAppend(EntryText(es[0], newLine), Render(es[1..], newLine), '\n');
    }
  }
}
