/**
 Per-failure extraction (CreateErrorMessageAndStacktrace, ErrorMessageParser.cs
 lines 139-174): the location marker of one raw failure text becomes the
 primary stack-trace entry and is deleted from the message; a trailing
 "Google Test trace:" block becomes further entries.
 */
module Extraction {
  import opened Wrappers
  import opened Strings
  import opened Decimal
  import opened Paths
  import opened Patterns
  import opened StackTrace

  /** One failure after extraction: its message and the entries of its stack trace. */
  datatype FailureRecord = FailureRecord(message: string, entries: seq<Entry>)

  /** Lines 150-152: group 2 when it is not empty, group 3 otherwise. */
  function LineNumber(m: LocationMatch): string
  {
    if m.colonLine != "" then m.colonLine else m.parenLine
  }

  /** The line number is the numeral written after the file, in whichever of the two syntaxes matched. */
  lemma LineNumberOfMatch(s: string, m: LocationMatch)
    requires m.IsLocationIn(s)
    ensures IsNumeral(LineNumber(m))
    ensures LineNumber(m) == m.colonLine || LineNumber(m) == m.parenLine
    ensures m.file + ":" + LineNumber(m) <= m.value || m.file + "(" + LineNumber(m) + "):" <= m.value
  {
  }

  /** Line 154: the `#<id> - ` prefix of a numbered failure. */
  function MsgReference(msgId: nat): (r: string)
    ensures msgId == 0 <==> r == ""
    ensures msgId != 0 ==>
      && |r| > 4 && r[0] == '#' && r[1] != '0' && EndsWith(r, " - ")
      && IsNumeral(r[1..|r| - 3]) && ValueOf(r[1..|r| - 3]) == msgId
  {
    if msgId == 0 then ""
    else
      var n := NatToString(msgId);
      ValueOfNatToString(msgId);
      var r := "#" + n + " - ";
      assert r[1..|r| - 3] == n;
      r
  }

  /** Line 156: the entry naming the failure's own location. */
  function PrimaryEntry(m: LocationMatch, msgId: nat): (e: Entry)
    ensures e.file == m.file && e.line == LineNumber(m)
    ensures MsgReference(msgId) <= e.caption
    ensures |e.caption| == |MsgReference(msgId)| + |FileName(m.file)| + 1 + |LineNumber(m)|
    ensures EndsWith(e.caption, FileName(m.file) + ":" + LineNumber(m))
    ensures msgId == 0 <==> e.caption == FileName(m.file) + ":" + LineNumber(m)
  {
    var lineNumber := LineNumber(m);
    var ref, fileAndLine := MsgReference(msgId), FileName(m.file) + ":" + lineNumber;
    var caption := ref + fileAndLine;
    assert caption[|ref|..] == fileAndLine;
    assert msgId == 0 ==> caption == fileAndLine by {
      if msgId == 0 {
        assert "" + fileAndLine == fileAndLine;
      }
    }
    Entry(caption, m.file, lineNumber)
  }

  /** Lines 167-171: the entry for one line of a scoped-trace block. */
  function TraceEntry(t: TraceMatch): (e: Entry)
    ensures e.file == t.file && e.line == t.line
    ensures "-->" <= e.caption && IsTrimOf(t.text, e.caption[3..])
  {
    var caption := "-->" + Trim(t.text);
    assert caption[3..] == Trim(t.text);
    Entry(caption, t.file, t.line)
  }

  function TraceEntries(ts: seq<TraceMatch>): (es: seq<Entry>)
    ensures |es| == |ts|
  {
    seq(|ts|, i requires 0 <= i < |ts| => TraceEntry(ts[i]))
  }

  /** The caption of a scoped-trace entry. */
  predicate IsTraceCaption(caption: string)
  {
    "-->" <= caption
  }

  lemma DigitsHaveNoMarks(s: string)
    requires AllDigits(s)
    ensures '>' !in s && '\n' !in s
  {
    forall k | 0 <= k < |s|
      ensures s[k] != '>' && s[k] != '\n'
    {
      assert IsDigit(s[k]);
    }
  }

  /** The file name of a matched path is made of valid path characters only. */
  lemma FileNameOfFilePath(f: string)
    requires IsFilePath(f)
    ensures '>' !in FileName(f) && '\n' !in FileName(f)
    ensures '\n' !in f
  {
    var r := FileName(f);
    forall k | 0 <= k < |r|
      ensures r[k] != '>' && r[k] != '\n'
    {
      assert r[k] == f[|f| - |r| + k];
      assert IsValidPathChar(f[|f| - |r| + k]);
    }
    forall k | 0 <= k < |f|
      ensures f[k] != '\n'
    {
      if k >= 2 {
        assert IsValidPathChar(f[k]);
      }
    }
  }

  lemma TraceEntrySingleLine(s: string, t: TraceMatch)
    requires IsTraceMatch(s, t)
    ensures IsSingleLine(TraceEntry(t))
  {
    FileNameOfFilePath(t.file);
    DigitsHaveNoMarks(t.line);
  }

  /** A caption without '>' cannot start with `-->`. */
  lemma NoMarkNoTrace(caption: string)
    requires '>' !in caption
    ensures !IsTraceCaption(caption)
  {
    if |caption| >= 3 {
      assert caption[2] in caption;
    }
  }

  /**
   The caption `[#id - ]file-name:line` holds neither '>' nor a line feed. This
   is the first step of PrimaryEntryShape, kept apart only to keep each proof
   small.
   */
  lemma PrimaryCaptionShape(s: string, m: LocationMatch, msgId: nat)
    requires m.IsLocationIn(s)
    ensures '>' !in PrimaryEntry(m, msgId).caption && '\n' !in PrimaryEntry(m, msgId).caption
  {
    LineNumberOfMatch(s, m);
    DigitsHaveNoMarks(LineNumber(m));
    FileNameOfFilePath(m.file);
    var fileAndLine := FileName(m.file) + ":" + LineNumber(m);
    assert '>' !in fileAndLine && '\n' !in fileAndLine;
    if msgId != 0 {
      DigitsHaveNoMarks(NatToString(msgId));
    }
    assert '>' !in MsgReference(msgId) && '\n' !in MsgReference(msgId);
  }

  /** The primary entry fits on one line and its caption holds no '>', so it never reads as a trace entry. */
  lemma PrimaryEntryShape(s: string, m: LocationMatch, msgId: nat)
    requires m.IsLocationIn(s)
    ensures IsSingleLine(PrimaryEntry(m, msgId))
    ensures '>' !in PrimaryEntry(m, msgId).caption
    ensures !IsTraceCaption(PrimaryEntry(m, msgId).caption)
  {
    PrimaryCaptionShape(s, m, msgId);
    LineNumberOfMatch(s, m);
    DigitsHaveNoMarks(LineNumber(m));
    FileNameOfFilePath(m.file);
    NoMarkNoTrace(PrimaryEntry(m, msgId).caption);
  }

  /** The text before the leftmost marker holds no marker. */
  lemma NoTraceStartBefore(message: string, i: nat)
    requires i <= |message|
    requires forall j: nat :: j < i ==> !TraceStartAt(message, j)
    ensures !HasTraceStart(message[..i])
  {
    var before := message[..i];
    var n := |TraceStart|;
    forall j: nat
      ensures !TraceStartAt(before, j)
    {
      if j + n <= |before| {
        assert before[j..j + n] == message[j..j + n];
        assert !TraceStartAt(message, j);
      }
    }
  }

  /** The entries of the scoped-trace block of `message`: one per ScopedTraceRegex match after the marker, none without a marker. */
  function TraceBlockEntries(c: Config, message: string): (es: seq<Entry>)
    ensures !HasTraceStart(message) ==> es == []
  {
    match MatchTraceStart(message)
    case None => []
    case Some(sp) => TraceEntries(c.trace(message[sp.index + sp.length..]))
  }

  /**
   Lines 159-173: when the message holds the scoped-trace marker, the message
   becomes the trimmed text before it, and each ScopedTraceRegex match in the
   text after it adds one entry, in match order, behind the given entries.
   */
  function ExpandScopedTrace(c: Config, message: string, entries: seq<Entry>): (r: FailureRecord)
    ensures r.entries == entries + TraceBlockEntries(c, message)
    ensures |entries| <= |r.entries| && r.entries[..|entries|] == entries
    ensures !HasTraceStart(message) ==> r == FailureRecord(message, entries)
    ensures HasTraceStart(message) ==> var sp := MatchTraceStart(message).value;
      && r.message == Trim(message[..sp.index])
      && r.entries == entries + TraceEntries(c.trace(message[sp.index + sp.length..]))
  {
    match MatchTraceStart(message)
    case None =>
      assert entries + [] == entries;
      FailureRecord(message, entries)
    case Some(sp) =>
      var scopedTraces := message[sp.index + sp.length..];
      var all := entries + TraceEntries(c.trace(scopedTraces));
      assert all[..|entries|] == entries;
      FailureRecord(Trim(message[..sp.index]), all)
  }

  /** After the expansion the message is free of the marker, no longer than before, and still trimmed if it was. */
  lemma ExpandedMessage(c: Config, message: string, entries: seq<Entry>)
    ensures var r := ExpandScopedTrace(c, message, entries);
      && !HasTraceStart(r.message)
      && |r.message| <= |message|
      && (IsTrimmed(message) ==> IsTrimmed(r.message))
  {
    var r := ExpandScopedTrace(c, message, entries);
    match MatchTraceStart(message)
    case None =>
    case Some(sp) =>
      var before := message[..sp.index];
      NoTraceStartBefore(message, sp.index);
      var i, k :| 0 <= i <= k <= |before| && r.message == before[i..k];
      NoTraceStartInSlice(before, i, k);
  }

  /** The entries of scoped-trace matches are single-line `-->` entries. */
  lemma TraceEntriesShape(s: string, ts: seq<TraceMatch>)
    requires IsTraceMatches(s, ts)
    ensures forall k :: 0 <= k < |ts| ==> IsTraceCaption(TraceEntries(ts)[k].caption)
    ensures forall k :: 0 <= k < |ts| ==> IsSingleLine(TraceEntries(ts)[k])
  {
    forall k | 0 <= k < |ts|
      ensures IsSingleLine(TraceEntries(ts)[k])
    {
      TraceEntrySingleLine(s, ts[k]);
    }
  }

  /** The entries of a scoped-trace block are single-line `-->` entries. */
  lemma TraceBlockEntriesShape(c: Config, message: string)
    requires ValidConfig(c)
    ensures forall k :: 0 <= k < |TraceBlockEntries(c, message)| ==> IsTraceCaption(TraceBlockEntries(c, message)[k].caption)
    ensures forall k :: 0 <= k < |TraceBlockEntries(c, message)| ==> IsSingleLine(TraceBlockEntries(c, message)[k])
  {
    match MatchTraceStart(message)
    case None =>
    case Some(sp) =>
      var scopedTraces := message[sp.index + sp.length..];
      assert IsTraceMatches(scopedTraces, c.trace(scopedTraces));
      TraceEntriesShape(scopedTraces, c.trace(scopedTraces));
  }

  /** The expansion keeps the given entries in front and adds only single-line trace entries after them. */
  lemma ExpandedEntries(c: Config, message: string, entries: seq<Entry>)
    requires ValidConfig(c)
    ensures var r := ExpandScopedTrace(c, message, entries);
      && |entries| <= |r.entries|
      && r.entries[..|entries|] == entries
      && (forall k :: |entries| <= k < |r.entries| ==> IsTraceCaption(r.entries[k].caption))
      && (forall k :: |entries| <= k < |r.entries| ==> IsSingleLine(r.entries[k]))
  {
    var r := ExpandScopedTrace(c, message, entries);
    var added := TraceBlockEntries(c, message);
    TraceBlockEntriesShape(c, message);
    forall k | |entries| <= k < |r.entries|
      ensures IsTraceCaption(r.entries[k].caption) && IsSingleLine(r.entries[k])
    {
      assert r.entries[k] == added[k - |entries|];
    }
  }

  /** A ParseRegex match holds at least a drive letter and a colon. */
  lemma ParsedMarkerIsNotEmpty(c: Config, s: string)
    requires ValidConfig(c)
    requires c.parse(s).Some?
    ensures |c.parse(s).value.value| > 0
  {
    assert IsParseMatch(s, c.parse(s).value);
  }

  /**
   Lines 139-174 for one raw failure text; `msgId` is its 1-based number, or 0
   when the failure is not numbered.
   */
  function CreateErrorMessageAndStacktrace(c: Config, errorMessage: string, msgId: nat): (r: FailureRecord)
    requires ValidConfig(c)
    ensures c.parse(errorMessage).None? ==> r == FailureRecord(errorMessage, [])
    ensures c.parse(errorMessage).Some? ==>
      var m := c.parse(errorMessage).value;
      var fileAndLine := FileName(m.file) + ":" + LineNumber(m);
      && |r.entries| >= 1
      && r.entries[0].file == m.file
      && r.entries[0].line == LineNumber(m)
      && (msgId == 0 ==> r.entries[0].caption == fileAndLine)
      && (msgId != 0 ==> r.entries[0].caption == "#" + NatToString(msgId) + " - " + fileAndLine)
    ensures c.parse(errorMessage).Some? ==>
      var m := c.parse(errorMessage).value;
      var stripped := Trim(RemoveAll(errorMessage, m.value));
      && r.entries == [PrimaryEntry(m, msgId)] + TraceBlockEntries(c, stripped)
      && (!HasTraceStart(stripped) ==> r.message == stripped)
      && (HasTraceStart(stripped) ==> r.message == Trim(stripped[..MatchTraceStart(stripped).value.index]))
  {
    match c.parse(errorMessage)
    case None => FailureRecord(errorMessage, [])
    case Some(m) =>
      ParsedMarkerIsNotEmpty(c, errorMessage);
      var primary := PrimaryEntry(m, msgId);
      var stripped := Trim(RemoveAll(errorMessage, m.value));
      var r := ExpandScopedTrace(c, stripped, [primary]);
      assert r.entries[..1] == [primary];
      r
  }

  /**
   The primary entry is the only one that is not a trace entry, and every entry
   fits on one line. This is the entries half of ExtractedRecord, kept apart only
   to keep each proof small.
   */
  lemma ExtractedEntries(c: Config, errorMessage: string, msgId: nat)
    requires ValidConfig(c)
    ensures var r := CreateErrorMessageAndStacktrace(c, errorMessage, msgId);
      && (forall k :: 0 <= k < |r.entries| ==> IsSingleLine(r.entries[k]))
      && (c.parse(errorMessage).Some? ==>
        && !IsTraceCaption(r.entries[0].caption)
        && (forall k :: 1 <= k < |r.entries| ==> IsTraceCaption(r.entries[k].caption)))
  {
    match c.parse(errorMessage)
    case None =>
    case Some(m) =>
      assert IsParseMatch(errorMessage, m);
      var primary := PrimaryEntry(m, msgId);
      PrimaryEntryShape(errorMessage, m, msgId);
      var stripped := Trim(RemoveAll(errorMessage, m.value));
      var r := CreateErrorMessageAndStacktrace(c, errorMessage, msgId);
      var added := TraceBlockEntries(c, stripped);
      assert r.entries == [primary] + added;
      TraceBlockEntriesShape(c, stripped);
      forall k | 0 <= k < |r.entries|
        ensures IsSingleLine(r.entries[k])
        ensures k >= 1 ==> IsTraceCaption(r.entries[k].caption)
      {
        if k >= 1 {
          assert r.entries[k] == added[k - 1];
        }
      }
  }

  /**
   The extracted message has lost the marker text and any scoped-trace block,
   and is trimmed. This is the message half of ExtractedRecord, kept apart only
   to keep each proof small.
   */
  lemma ExtractedMessage(c: Config, errorMessage: string, msgId: nat)
    requires ValidConfig(c)
    ensures var r := CreateErrorMessageAndStacktrace(c, errorMessage, msgId);
      c.parse(errorMessage).Some? ==>
        && |r.message| <= |errorMessage| - |c.parse(errorMessage).value.value|
        && IsTrimmed(r.message)
        && !HasTraceStart(r.message)
  {
    match c.parse(errorMessage)
    case None =>
    case Some(m) =>
      assert IsParseMatch(errorMessage, m);
      assert OccursAt(errorMessage, m.value, m.index);
      var removed := RemoveAll(errorMessage, m.value);
      assert |removed| <= |errorMessage| - |m.value|;
      var stripped := Trim(removed);
      TrimTrimmed(stripped);
      ExpandedMessage(c, stripped, [PrimaryEntry(m, msgId)]);
  }

  /**
   The extracted message has lost the marker text and any scoped-trace block and
   is trimmed; the primary entry is the only one that is not a trace entry; and
   every entry fits on one line.
   */
  lemma ExtractedRecord(c: Config, errorMessage: string, msgId: nat)
    requires ValidConfig(c)
    ensures var r := CreateErrorMessageAndStacktrace(c, errorMessage, msgId);
      && (forall k :: 0 <= k < |r.entries| ==> IsSingleLine(r.entries[k]))
      && (c.parse(errorMessage).Some? ==>
        && |r.message| <= |errorMessage| - |c.parse(errorMessage).value.value|
        && IsTrimmed(r.message)
        && !HasTraceStart(r.message)
        && !IsTraceCaption(r.entries[0].caption)
        && (forall k :: 1 <= k < |r.entries| ==> IsTraceCaption(r.entries[k].caption)))
  {
    ExtractedEntries(c, errorMessage, msgId);
    ExtractedMessage(c, errorMessage, msgId);
  }
}
