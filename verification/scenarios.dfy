/**
 A worked scenario: the console output of a run with one failure,
 `c:\a\b.cc:10: error: boom`, under matchers that report exactly the location
 marker a regex engine finds there.
 */
module Scenarios {
  import opened Wrappers
  import opened Strings
  import opened Decimal
  import opened Paths
  import opened Patterns
  import opened StackTrace
  import opened Extraction
  import opened Parser

  const Console := "c:\\a\\b.cc:10: error: boom"
  const Marker := LocationMatch(0, "c:\\a\\b.cc:10: error: ", "c:\\a\\b.cc", "10", "")
  /** The stack-trace entry the marker should give. */
  const Primary := Entry("b.cc:10", "c:\\a\\b.cc", "10")

  function SplitOne(s: string): seq<LocationMatch>
  {
    if s == Console then [Marker] else []
  }

  function ParseOne(s: string): Option<LocationMatch>
  {
    if s == Console then Some(Marker) else None
  }

  function NoTraces(s: string): seq<TraceMatch>
  {
    []
  }

  const WindowsConfig := Config(SplitOne, ParseOne, NoTraces, "\r\n")

  lemma MarkerIsSplitMatch()
    ensures IsSplitMatch(Console, Marker)
    ensures IsParseMatch(Console, Marker)
  {
    assert Console[0..|Marker.value|] == Marker.value;
    assert IsFilePath(Marker.file);
    assert IsNumeral(Marker.colonLine);
    assert Marker.Head() == "c:\\a\\b.cc:10";
    assert Marker.Tail() == ": error: ";
    assert IsErrorTag("error: ");
  }

  lemma WindowsConfigIsValid()
    ensures ValidConfig(WindowsConfig)
  {
    MarkerIsSplitMatch();
  }

  /** The whole console output is the one failure text; nothing precedes it. */
  lemma ScenarioSegments()
    ensures ValidConfig(WindowsConfig) &&
      FromConsoleOutput(WindowsConfig, Console) == ErrorMessageParser([Console], "", None)
  {
    WindowsConfigIsValid();
    var ms := [Marker];
    SplitMatchesAreOrdered(Console, ms);
    var segs := Segmentation.Cut(Console, ms);
    assert segs == [Console[0..|Console|]];
    assert Console[0..|Console|] == Console;
  }

  lemma ScenarioStripped()
    ensures Trim(RemoveAll(Console, Marker.value)) == "boom"
    ensures !HasTraceStart("boom")
  {
    assert RemoveAll(Console, Marker.value) == "boom" by {
      assert Console[..|Marker.value|] == Marker.value;
      assert Console[|Marker.value|..] == "boom";
    }
    TrimTrimmed("boom");
  }

  lemma ScenarioFileName()
    ensures FileName("c:\\a\\b.cc") == "b.cc"
  {
    assert "c:\\a\\b.cc" == "c:\\a" + ['\\'] + "b.cc";
    FileNameAfterSeparator("c:\\a", '\\', "b.cc");
  }

  /** Without a scoped trace the record is the stripped message and the primary entry alone. */
  lemma ScenarioRecordShape()
    ensures ValidConfig(WindowsConfig) &&
      CreateErrorMessageAndStacktrace(WindowsConfig, Console, 0) == FailureRecord("boom", [PrimaryEntry(Marker, 0)])
  {
    WindowsConfigIsValid();
    ScenarioStripped();
    assert WindowsConfig.parse(Console) == Some(Marker);
  }

  lemma ScenarioPrimary()
    ensures PrimaryEntry(Marker, 0) == Primary
  {
    ScenarioFileName();
    assert MsgReference(0) == "";
    assert "" + "b.cc:10" == "b.cc:10";
  }

  /** The marker goes from the message and becomes the one entry `b.cc:10`. */
  lemma ScenarioRecord()
    ensures ValidConfig(WindowsConfig) &&
      CreateErrorMessageAndStacktrace(WindowsConfig, Console, 0)
        == FailureRecord("boom", [Primary])
  {
    ScenarioRecordShape();
    ScenarioPrimary();
  }

  lemma ScenarioText()
    ensures Render([Primary], "\r\n") == "at b.cc:10 in c:\\a\\b.cc:line 10\r\n"
  {
    assert [Primary][1..] == [];
    var t1 := "at " + "b.cc:10";
    assert t1 == "at b.cc:10";
    var t2 := t1 + " in " + "c:\\a\\b.cc";
    assert t2 == "at b.cc:10 in c:\\a\\b.cc";
    var t3 := t2 + ":line " + "10";
    assert t3 == "at b.cc:10 in c:\\a\\b.cc:line 10";
    var t := t3 + "\r\n";
    assert t == "at b.cc:10 in c:\\a\\b.cc:line 10\r\n";
    assert EntryText(Primary, "\r\n") == t;
    assert Render([Primary], "\r\n") == t + "";
  }

  lemma ScenarioOutput()
    ensures ValidConfig(WindowsConfig) &&
      Parse(WindowsConfig, FromConsoleOutput(WindowsConfig, Console)).output
        == Some(Output("boom", Render([Primary], "\r\n")))
  {
    ScenarioSegments();
    ScenarioRecord();
  }

  /** The single failure becomes the message `boom` and one unnumbered stack-trace line. */
  lemma SingleFailureScenario()
    ensures ValidConfig(WindowsConfig) &&
      Parse(WindowsConfig, FromConsoleOutput(WindowsConfig, Console)).output
        == Some(Output("boom", "at b.cc:10 in c:\\a\\b.cc:line 10\r\n"))
  {
    ScenarioOutput();
    ScenarioText();
  }

  /**
   String.Replace deletes every copy of the marker text, not only the matched
   one, and also the same characters inside a longer location on a later line.
   */
  lemma ReplaceDeletesEveryCopy()
    ensures RemoveAll("c:\\a.cc:1\nc:\\a.cc:10", "c:\\a.cc:1") == "\n0"
  {
    var p := "c:\\a.cc:1";
    var s := "c:\\a.cc:1\nc:\\a.cc:10";
    assert s[..|p|] == p && s[|p|..] == "\nc:\\a.cc:10";
    var t := "\nc:\\a.cc:10";
    assert t[..|p|] != p && t[1..] == "c:\\a.cc:10";
    var u := "c:\\a.cc:10";
    assert u[..|p|] == p && u[|p|..] == "0";
    assert RemoveAll(u, p) == "0";
    assert RemoveAll(t, p) == ['\n'] + "0";
  }
}
