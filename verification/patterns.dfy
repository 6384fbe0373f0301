/**
 The four patterns of ErrorMessageParser (static constructor, lines 18-35).

 SplitRegex, ParseRegex and ScopedTraceRegex are not re-implemented: a
 `Config` carries them as matcher functions, and `ValidConfig` states what
 every match record they return looks like, namely a piece of the searched
 text with the shape the pattern prescribes. ScopedTraceStartRegex is a
 literal followed by `\s*` and is modelled exactly by `MatchTraceStart`.
 */
module Patterns {
  import opened Wrappers
  import opened Strings
  import opened Decimal
  import opened Paths

  /** Lower-casing as RegexOptions.IgnoreCase applies it to the ASCII letters. */
  function ToLowerAscii(c: char): char
  {
    if 'A' <= c <= 'Z' then (c as int + 32) as char else c
  }

  predicate EqualsIgnoreCase(a: string, b: string)
  {
    |a| == |b| && forall k :: 0 <= k < |a| ==> ToLowerAscii(a[k]) == ToLowerAscii(b[k])
  }

  /** `[a-z]` under IgnoreCase. */
  predicate IsDriveLetter(c: char)
  {
    'a' <= ToLowerAscii(c) <= 'z'
  }

  /** The `file` sub-pattern: a drive letter, a colon, then valid path characters. */
  predicate IsFilePath(s: string)
  {
    && |s| >= 2
    && IsDriveLetter(s[0])
    && s[1] == ':'
    && forall k :: 2 <= k < |s| ==> IsValidPathChar(s[k])
  }

  /** The `error` sub-pattern `(?:error: |Failure\n)` under IgnoreCase. */
  predicate IsErrorTag(t: string)
  {
    EqualsIgnoreCase(t, "error: ") || EqualsIgnoreCase(t, "failure\n")
  }

  /** `:? ` followed by an error tag, which follows `fileAndLine` in both location patterns. */
  predicate IsErrorSuffix(t: string)
  {
    || (|t| >= 1 && t[0] == ' ' && IsErrorTag(t[1..]))
    || (|t| >= 2 && t[..2] == ": " && IsErrorTag(t[2..]))
  }

  /**
   A match of SplitRegex or ParseRegex: `index` and `value` as in
   System.Text.RegularExpressions.Match, `file` group 1, `colonLine` group 2
   (the `file:line:` syntax) and `parenLine` group 3 (the `file(line):` syntax).
   A group that did not take part in the match has the value "".
   */
  datatype LocationMatch = LocationMatch(index: nat, value: string, file: string, colonLine: string, parenLine: string)
  {
    /** The `fileAndLine` text of the match, in whichever syntax matched. */
    function Head(): string
    {
      if colonLine != "" then file + ":" + colonLine else file + "(" + parenLine + "):"
    }

    /** `value` is found at `index` of `s` and starts with a well-formed `fileAndLine`. */
    ghost predicate IsLocationIn(s: string)
    {
      && OccursAt(s, value, index)
      && IsFilePath(file)
      && ((IsNumeral(colonLine) && parenLine == "") || (colonLine == "" && IsNumeral(parenLine)))
      && |Head()| <= |value|
      && value[..|Head()|] == Head()
    }

    /** What the match holds after `fileAndLine`. */
    function Tail(): string
      requires |Head()| <= |value|
    {
      value[|Head()|..]
    }
  }

  /** SplitRegex: `fileAndLine` followed by a mandatory `:? ` and error tag. */
  ghost predicate IsSplitMatch(s: string, m: LocationMatch)
  {
    m.IsLocationIn(s) && IsErrorSuffix(m.Tail())
  }

  /** ParseRegex: `fileAndLine` followed by an optional `:? ` and error tag. */
  ghost predicate IsParseMatch(s: string, m: LocationMatch)
  {
    m.IsLocationIn(s) && (m.Tail() == "" || IsErrorSuffix(m.Tail()))
  }

  /** The matches of Regex.Matches: each one a match, in increasing order, none overlapping. */
  ghost predicate IsSplitMatches(s: string, ms: seq<LocationMatch>)
  {
    && (forall i :: 0 <= i < |ms| ==> IsSplitMatch(s, ms[i]))
    && (forall i, j :: 0 <= i < j < |ms| ==> ms[i].index + |ms[i].value| <= ms[j].index)
  }

  /** What cutting a text at the matches relies on: each match is a non-empty piece of `s`, and they come in order without overlap. */
  ghost predicate IsOrderedIn(s: string, ms: seq<LocationMatch>)
  {
    && (forall i :: 0 <= i < |ms| ==> |ms[i].value| > 0 && OccursAt(s, ms[i].value, ms[i].index))
    && (forall i, j :: 0 <= i < j < |ms| ==> ms[i].index + |ms[i].value| <= ms[j].index)
  }

  lemma SplitMatchesAreOrdered(s: string, ms: seq<LocationMatch>)
    requires IsSplitMatches(s, ms)
    ensures IsOrderedIn(s, ms)
  {
    forall i | 0 <= i < |ms|
      ensures |ms[i].value| > 0 && OccursAt(s, ms[i].value, ms[i].index)
    {
      assert IsSplitMatch(s, ms[i]);
    }
  }

  /** A match of ScopedTraceRegex `file\(line\): (.*)`; group 3 is `text`, where `.` excludes '\n'. */
  datatype TraceMatch = TraceMatch(index: nat, value: string, file: string, line: string, text: string)

  ghost predicate IsTraceMatch(s: string, t: TraceMatch)
  {
    && OccursAt(s, t.value, t.index)
    && IsFilePath(t.file)
    && IsNumeral(t.line)
    && '\n' !in t.text
    && t.value == t.file + "(" + t.line + "): " + t.text
  }

  ghost predicate IsTraceMatches(s: string, ts: seq<TraceMatch>)
  {
    && (forall i :: 0 <= i < |ts| ==> IsTraceMatch(s, ts[i]))
    && (forall i, j :: 0 <= i < j < |ts| ==> ts[i].index + |ts[i].value| <= ts[j].index)
  }

  /**
   The fixed environment of a parser: the three matchers (SplitRegex.Matches,
   ParseRegex.Match and ScopedTraceRegex.Matches) and Environment.NewLine.
   */
  datatype Config = Config(
    split: string -> seq<LocationMatch>,
    parse: string -> Option<LocationMatch>,
    trace: string -> seq<TraceMatch>,
    newLine: string)

  ghost predicate ValidConfig(c: Config)
  {
    && (forall s :: IsSplitMatches(s, c.split(s)))
    && (forall s :: c.parse(s).Some? ==> IsParseMatch(s, c.parse(s).value))
    && (forall s :: IsTraceMatches(s, c.trace(s)))
  }

  /** ScopedTraceStartRegex without its `\s*`, lower-cased. */
  const TraceStart := "google test trace:"

  /** The marker that opens a scoped-trace block occurs at `i` of `s`, in any letter case. */
  predicate TraceStartAt(s: string, i: nat)
  {
    i + |TraceStart| <= |s| && EqualsIgnoreCase(s[i..i + |TraceStart|], TraceStart)
  }

  ghost predicate HasTraceStart(s: string)
  {
    exists i: nat :: TraceStartAt(s, i)
  }

  /** The leftmost position at or after `from` where the marker occurs. */
  function FindTraceStart(s: string, from: nat): (r: Option<nat>)
    requires from <= |s|
    ensures r.Some? ==> from <= r.value && TraceStartAt(s, r.value)
    ensures r.Some? ==> forall j: nat :: from <= j < r.value ==> !TraceStartAt(s, j)
    ensures r.None? ==> forall j: nat :: from <= j ==> !TraceStartAt(s, j)
    decreases |s| - from
  {
    if from + |TraceStart| > |s| then None
    else if TraceStartAt(s, from) then Some(from)
    else FindTraceStart(s, from + 1)
  }

  datatype Span = Span(index: nat, length: nat)

  /** The length of the white-space run that starts at `k` of `s` (the greedy `\s*`). */
  function WhiteSpaceRun(s: string, k: nat): (w: nat)
    requires k <= |s|
    ensures k + w <= |s|
    ensures AllWhiteSpace(s[k..k + w])
    ensures k + w < |s| ==> !IsWhiteSpace(s[k + w])
  {
    var rest := s[k..];
    var w := LeadingWhiteSpace(rest);
    assert s[k..k + w] == rest[..w];
    assert k + w < |s| ==> s[k + w] == rest[w];
    w
  }

  /** ScopedTraceStartRegex.Match: the leftmost marker and all the white space after it. */
  function MatchTraceStart(s: string): (r: Option<Span>)
    ensures r.None? <==> !HasTraceStart(s)
    ensures r.Some? ==> var i, n := r.value.index, r.value.length;
      && TraceStartAt(s, i)
      && (forall j: nat :: j < i ==> !TraceStartAt(s, j))
      && |TraceStart| <= n && i + n <= |s|
      && AllWhiteSpace(s[i + |TraceStart|..i + n])
      && (i + n < |s| ==> !IsWhiteSpace(s[i + n]))
  {
    match FindTraceStart(s, 0)
    case None =>
      assert !HasTraceStart(s);
      None
    case Some(i) =>
      assert TraceStartAt(s, i);
      Some(Span(i, |TraceStart| + WhiteSpaceRun(s, i + |TraceStart|)))
  }

  /** A piece of a text without the marker is without the marker too. */
  lemma NoTraceStartInSlice(s: string, a: nat, b: nat)
    requires a <= b <= |s|
    requires !HasTraceStart(s)
    ensures !HasTraceStart(s[a..b])
  {
    forall i: nat
      ensures !TraceStartAt(s[a..b], i)
    {
      var n := |TraceStart|;
      if i + n <= b - a {
        var piece, whole := s[a..b][i..i + n], s[a + i..a + i + n];
        assert forall k :: 0 <= k < n ==> piece[k] == whole[k];
        assert piece == whole;
        assert !TraceStartAt(s, a + i);
      }
    }
  }
}
