/**
 SplitConsoleOutput (ErrorMessageParser.cs lines 82-108): the console output of
 a test run is cut at the start of every SplitRegex match; the text before the
 first match is kept aside as the output before the first failure.
 */
module Segmentation {
  import opened Strings
  import opened Patterns

  /** The leading text and the raw failure texts of one console output. */
  datatype Segments = Segments(leading: string, failures: seq<string>)

  /** Where the segment opened by match `i` ends: at the next match, or at the end of `s`. */
  function SegmentEnd(s: string, ms: seq<LocationMatch>, i: nat): (e: nat)
    requires IsOrderedIn(s, ms)
    requires i < |ms|
    ensures ms[i].index + |ms[i].value| <= e <= |s|
  {
    if i + 1 < |ms| then ms[i + 1].index
    else |s|
  }

  /** One segment per match, from the match's start to the next match's start. */
  function Cut(s: string, ms: seq<LocationMatch>): (segs: seq<string>)
    requires IsOrderedIn(s, ms)
    ensures |segs| == |ms|
  {
    seq(|ms|, i requires 0 <= i < |ms| => s[ms[i].index..SegmentEnd(s, ms, i)])
  }

  /** The segments from the `k`-th on put back together give the input from match `k` on. */
  lemma {:induction false} ConcatCut(s: string, ms: seq<LocationMatch>, k: nat)
    requires IsOrderedIn(s, ms)
    requires k < |ms|
    ensures Concat(Cut(s, ms)[k..]) == s[ms[k].index..]
    decreases |ms| - k
  {
    var segs := Cut(s, ms);
    assert segs[k..][1..] == segs[k + 1..];
    if k + 1 < |ms| {
      ConcatCut(s, ms, k + 1);
      var e := ms[k + 1].index;
      assert s[ms[k].index..] == s[ms[k].index..e] + s[e..];
    } else {
      assert segs[k + 1..] == [];
    }
  }

  /** Every segment opens with the text of its match. */
  lemma CutStartsWithMatch(s: string, ms: seq<LocationMatch>)
    requires IsOrderedIn(s, ms)
    ensures forall i :: 0 <= i < |ms| ==> ms[i].value <= Cut(s, ms)[i]
  {
    var segs := Cut(s, ms);
    forall i | 0 <= i < |ms|
      ensures ms[i].value <= segs[i]
    {
      var a, n := ms[i].index, |ms[i].value|;
      assert segs[i][..n] == s[a..a + n];
    }
  }

  function SplitConsoleOutput(s: string, ms: seq<LocationMatch>): (r: Segments)
    requires IsOrderedIn(s, ms)
    ensures s == "" ==> r == Segments("", [])
    ensures s != "" && ms == [] ==> r == Segments("", [s])
    ensures ms != [] ==> |r.failures| == |ms| && r.leading == s[..ms[0].index]
    ensures ms != [] ==> forall i :: 0 <= i < |ms| ==> r.failures[i] == s[ms[i].index..SegmentEnd(s, ms, i)]
    ensures ms != [] ==> forall i :: 0 <= i < |ms| ==> ms[i].value <= r.failures[i]
    ensures forall i :: 0 <= i < |r.failures| ==> r.failures[i] != ""
    ensures r.leading + Concat(r.failures) == s
  {
    assert |ms| > 0 ==> |ms[0].value| > 0 && ms[0].index + |ms[0].value| <= |s|;
    if s == "" then
      Segments("", [])
    else if |ms| == 0 then
      Segments("", [s])
    else
      var leading := if ms[0].index > 0 then s[..ms[0].index] else "";
      assert leading == s[..ms[0].index];
      var segs := Cut(s, ms);
      ConcatCut(s, ms, 0);
      CutStartsWithMatch(s, ms);
      assert segs[0..] == segs;
      assert s == leading + s[ms[0].index..];
      Segments(leading, segs)
  }
}
