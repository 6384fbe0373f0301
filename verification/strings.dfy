/**
 The .NET string operations the failure extractor relies on, stated over
 `seq<char>`: `Char.IsWhiteSpace` and `String.Trim`, `String.Replace` with an
 empty replacement, `String.EndsWith`, `String.Join`, and the splitting and
 counting that the properties of the extractor are phrased with.
 */
module Strings {

  /** Char.IsWhiteSpace; the regex class `\s` denotes the same set of characters. */
  predicate IsWhiteSpace(c: char)
  {
    var n := c as int;
    (9 <= n <= 13) || n == 0x20 || n == 0x85 || n == 0xA0 || n == 0x1680
    || (0x2000 <= n <= 0x200A) || n == 0x2028 || n == 0x2029
    || n == 0x202F || n == 0x205F || n == 0x3000
  }

  predicate AllWhiteSpace(s: string)
  {
    forall k :: 0 <= k < |s| ==> IsWhiteSpace(s[k])
  }

  /** Neither end of `s` is white space. */
  predicate IsTrimmed(s: string)
  {
    s == "" || (!IsWhiteSpace(s[0]) && !IsWhiteSpace(s[|s| - 1]))
  }

  /** `r` is `s` with every leading and trailing white-space character removed. */
  ghost predicate IsTrimOf(s: string, r: string)
  {
    && IsTrimmed(r)
    && exists i, j :: 0 <= i <= j <= |s| && r == s[i..j] && AllWhiteSpace(s[..i]) && AllWhiteSpace(s[j..])
  }

  /** Number of white-space characters at the start of `s`. */
  function LeadingWhiteSpace(s: string): (n: nat)
    ensures n <= |s|
    ensures AllWhiteSpace(s[..n])
    ensures n < |s| ==> !IsWhiteSpace(s[n])
  {
    if |s| == 0 || !IsWhiteSpace(s[0]) then 0
    else
      var n' := LeadingWhiteSpace(s[1..]);
      assert forall k :: 1 <= k < 1 + n' ==> s[k] == s[1..][k - 1];
      1 + n'
  }

  /** Number of white-space characters at the end of `s`. */
  function TrailingWhiteSpace(s: string): (n: nat)
    ensures n <= |s|
    ensures AllWhiteSpace(s[|s| - n..])
    ensures n < |s| ==> !IsWhiteSpace(s[|s| - n - 1])
  {
    if |s| == 0 || !IsWhiteSpace(s[|s| - 1]) then 0
    else
      var p := s[..|s| - 1];
      var n' := TrailingWhiteSpace(p);
      assert s[|s| - (1 + n')..] == p[|p| - n'..] + [s[|s| - 1]];
      1 + n'
  }

  /** String.Trim(). */
  function Trim(s: string): (r: string)
    ensures IsTrimOf(s, r)
    ensures |r| <= |s|
    ensures forall c :: c in r ==> c in s
  {
    var a := LeadingWhiteSpace(s);
    var rest := s[a..];
    var b := TrailingWhiteSpace(rest);
    var j := |s| - b;
    var r := s[a..j];
    assert rest[|rest| - b..] == s[j..];
    assert AllWhiteSpace(s[..a]) && AllWhiteSpace(s[j..]);
    assert r == rest[..|rest| - b];
    assert r != "" ==> r[0] == s[a] && r[|r| - 1] == rest[|rest| - b - 1];
    assert IsTrimmed(r);
    assert 0 <= a <= j <= |s| && r == s[a..j];
    SliceChars(s, a, j);
    r
  }

  /** A slice holds only characters of the whole. */
  lemma SliceChars(s: string, i: nat, j: nat)
    requires i <= j <= |s|
    ensures forall c :: c in s[i..j] ==> c in s
  {
    forall c | c in s[i..j]
      ensures c in s
    {
      var k :| 0 <= k < j - i && s[i..j][k] == c;
      assert s[i + k] == c;
    }
  }

  /** Trimming a string that is already trimmed changes nothing. */
  lemma TrimTrimmed(s: string)
    requires IsTrimmed(s)
    ensures Trim(s) == s
  {
    assert LeadingWhiteSpace(s) == 0;
    assert s[0..] == s;
    assert TrailingWhiteSpace(s) == 0;
  }

  /** String.Trim() is idempotent. */
  lemma TrimIdempotent(s: string)
    ensures Trim(Trim(s)) == Trim(s)
  {
    TrimTrimmed(Trim(s));
  }

  /** `p` occurs in `s` starting at offset `i`. */
  ghost predicate OccursAt(s: string, p: string, i: int)
  {
    0 <= i && i + |p| <= |s| && s[i..i + |p|] == p
  }

  ghost predicate Contains(s: string, p: string)
  {
    exists i :: OccursAt(s, p, i)
  }

  /** When `p` does not start `s`, `p` occurs in `s` exactly when it occurs in `s[1..]`. */
  lemma ContainsInTail(s: string, p: string)
    requires |s| > 0 && |p| > 0
    requires !(|p| <= |s| && s[..|p|] == p)
    ensures Contains(s, p) <==> Contains(s[1..], p)
  {
    if Contains(s, p) {
      var i :| OccursAt(s, p, i);
      assert i != 0;
      assert s[1..][i - 1..i - 1 + |p|] == s[i..i + |p|];
      assert OccursAt(s[1..], p, i - 1);
    }
    if Contains(s[1..], p) {
      var i :| OccursAt(s[1..], p, i);
      assert s[1..][i..i + |p|] == s[i + 1..i + 1 + |p|];
      assert OccursAt(s, p, i + 1);
    }
  }

  /**
   String.Replace(p, ""): every occurrence of `p`, found left to right without
   overlap, is deleted. ErrorMessageParser never passes an empty `p` (Replace
   throws on one).
   */
  function RemoveAll(s: string, p: string): (r: string)
    requires |p| > 0
    ensures |r| <= |s|
    ensures !Contains(s, p) ==> r == s
    ensures Contains(s, p) ==> |r| <= |s| - |p|
    ensures forall c :: c in r ==> c in s
    decreases |s|
  {
    if |s| < |p| then
      s
    else if s[..|p|] == p then
      assert OccursAt(s, p, 0);
      RemoveAll(s[|p|..], p)
    else
      ContainsInTail(s, p);
      [s[0]] + RemoveAll(s[1..], p)
  }

  /** The result of RemoveAll equals its input exactly when there was nothing to remove. */
  lemma RemoveAllUnchanged(s: string, p: string)
    requires |p| > 0
    ensures RemoveAll(s, p) == s <==> !Contains(s, p)
  {
  }

  /**
   Text in front of the first occurrence is kept as it is, and removal goes on
   after that occurrence: `a + p[..|p| - 1]` holding no `p` says the occurrence
   right after `a` is the leftmost one.
   */
  lemma {:induction false} RemoveAllSkipsPrefix(a: string, p: string, b: string)
    requires |p| > 0
    requires !Contains(a + p[..|p| - 1], p)
    ensures RemoveAll(a + p + b, p) == a + RemoveAll(b, p)
    decreases |a|
  {
    if |a| == 0 {
      var s := a + p + b;
      assert s == p + b;
      assert s[..|p|] == p && s[|p|..] == b;
    } else {
      KeepFirstBeforeOccurrence(a, p, b);
      RemoveAllSkipsPrefix(a[1..], p, b);
      var rest := RemoveAll(b, p);
      assert [a[0]] + (a[1..] + rest) == ([a[0]] + a[1..]) + rest;
      assert [a[0]] + a[1..] == a;
    }
  }

  /** One step of RemoveAllSkipsPrefix: the first character of `a` is kept. */
  lemma KeepFirstBeforeOccurrence(a: string, p: string, b: string)
    requires |a| > 0 && |p| > 0
    requires !Contains(a + p[..|p| - 1], p)
    ensures !Contains(a[1..] + p[..|p| - 1], p)
    ensures RemoveAll(a + p + b, p) == [a[0]] + RemoveAll(a[1..] + p + b, p)
  {
    var s := a + p + b;
    var q := a + p[..|p| - 1];
    assert s[..|p|] == q[..|p|];
    assert s[..|p|] != p by {
      assert !OccursAt(q, p, 0);
    }
    ContainsInTail(q, p);
    assert q[1..] == a[1..] + p[..|p| - 1];
    assert s[1..] == a[1..] + p + b;
  }

  /**
   RemoveAll deletes the leftmost occurrence of `p`, keeps the text before it,
   and removes every later occurrence from the rest.
   */
  lemma RemoveAllAtLeftmost(s: string, p: string, i: nat)
    requires |p| > 0
    requires OccursAt(s, p, i)
    requires forall j :: 0 <= j < i ==> !OccursAt(s, p, j)
    ensures RemoveAll(s, p) == s[..i] + RemoveAll(s[i + |p|..], p)
  {
    NoOccurrenceBefore(s, p, i);
    assert s == s[..i] + p + s[i + |p|..];
    RemoveAllSkipsPrefix(s[..i], p, s[i + |p|..]);
  }

  /** No occurrence starts before `i`, so none lies in `s` cut one short of the end of the one at `i`. */
  lemma NoOccurrenceBefore(s: string, p: string, i: nat)
    requires |p| > 0
    requires OccursAt(s, p, i)
    requires forall j :: 0 <= j < i ==> !OccursAt(s, p, j)
    ensures !Contains(s[..i] + p[..|p| - 1], p)
  {
    var q := s[..i] + p[..|p| - 1];
    assert q == s[..i + |p| - 1];
    forall j: int
      ensures !OccursAt(q, p, j)
    {
      if 0 <= j && j + |p| <= |q| {
        assert q[j..j + |p|] == s[j..j + |p|];
        assert !OccursAt(s, p, j);
      }
    }
  }

  /** String.EndsWith with an ordinal comparison. */
  predicate EndsWith(s: string, suffix: string)
  {
    |suffix| <= |s| && s[|s| - |suffix|..] == suffix
  }

  lemma AppendAssociative(x: string, y: string, z: string)
    ensures x + (y + z) == (x + y) + z
  {
  }

  /** Appending text keeps a prefix. */
  lemma PrefixOfAppend(p: string, x: string, y: string)
    requires p <= x
    ensures p <= x + y
  {
    assert (x + y)[..|p|] == x[..|p|];
  }

  /** Prepending text keeps a suffix. */
  lemma EndsWithPrepend(x: string, y: string, suffix: string)
    requires EndsWith(y, suffix)
    ensures EndsWith(x + y, suffix)
  {
    assert (x + y)[|x + y| - |suffix|..] == y[|y| - |suffix|..];
  }

  /** String.Join(sep, xs). */
  function Join(sep: string, xs: seq<string>): string
  {
    if |xs| == 0 then ""
    else if |xs| == 1 then xs[0]
    else xs[0] + sep + Join(sep, xs[1..])
  }

  /** The pieces of `s` between occurrences of `d` (String.Split(d)). */
  function Split(s: string, d: char): (r: seq<string>)
    ensures |r| >= 1
    ensures |r| == Count(s, d) + 1
    decreases |s|
  {
    if |s| == 0 then [""]
    else
      var rest := Split(s[1..], d);
      if s[0] == d then [""] + rest else [[s[0]] + rest[0]] + rest[1..]
  }

  lemma {:induction false} SplitWithoutDelimiter(s: string, d: char)
    requires d !in s
    ensures Split(s, d) == [s]
    decreases |s|
  {
    if |s| > 0 {
      SplitWithoutDelimiter(s[1..], d);
      assert [s[0]] + s[1..] == s;
    }
  }

  lemma {:induction false} SplitAtFirstDelimiter(a: string, b: string, d: char)
    requires d !in a
    ensures Split(a + [d] + b, d) == [a] + Split(b, d)
    decreases |a|
  {
    if |a| == 0 {
      assert a + [d] + b == [d] + b;
      assert ([d] + b)[1..] == b;
    } else {
      var s := a + [d] + b;
      assert s[0] == a[0] && s[0] != d;
      assert s[1..] == a[1..] + [d] + b;
      SplitAtFirstDelimiter(a[1..], b, d);
      var rest := Split(s[1..], d);
      assert rest == [a[1..]] + Split(b, d);
      assert rest[0] == a[1..] && rest[1..] == Split(b, d);
      assert [s[0]] + rest[0] == a;
      assert Split(s, d) == [[s[0]] + rest[0]] + rest[1..];
    }
  }

  /** Joining pieces that do not contain the delimiter and splitting again gives the pieces back. */
  lemma {:induction false} SplitJoin(xs: seq<string>, d: char)
    requires |xs| >= 1
    requires forall i :: 0 <= i < |xs| ==> d !in xs[i]
    ensures Split(Join([d], xs), d) == xs
    decreases |xs|
  {
    if |xs| == 1 {
      SplitWithoutDelimiter(xs[0], d);
    } else {
      SplitAtFirstDelimiter(xs[0], Join([d], xs[1..]), d);
      SplitJoin(xs[1..], d);
      assert [xs[0]] + xs[1..] == xs;
    }
  }

  /** String.Join("", xs). */
  function Concat(xs: seq<string>): string
  {
    if |xs| == 0 then "" else xs[0] + Concat(xs[1..])
  }

  /** Concat is String.Join with the empty separator. */
  lemma {:induction false} ConcatIsJoin(xs: seq<string>)
    ensures Concat(xs) == Join("", xs)
    decreases |xs|
  {
    if |xs| == 1 {
      assert Concat(xs) == xs[0] + "";
    } else if |xs| > 1 {
      ConcatIsJoin(xs[1..]);
      assert xs[0] + "" == xs[0];
    }
  }

  lemma {:induction false} ConcatAppend(a: seq<string>, b: seq<string>)
    ensures Concat(a + b) == Concat(a) + Concat(b)
    decreases |a|
  {
    if |a| > 0 {
      ConcatAppend(a[1..], b);
      assert (a + b)[1..] == a[1..] + b;
    } else {
      assert a + b == b;
    }
  }

  /** Number of occurrences of `c` in `s`. */
  function Count(s: string, c: char): (n: nat)
    ensures n <= |s|
    ensures n == 0 <==> c !in s
  {
    if |s| == 0 then 0
    else
      assert s == [s[0]] + s[1..];
      (if s[0] == c then 1 else 0) + Count(s[1..], c)
  }

  lemma {:induction false} CountAppend(a: string, b: string, c: char)
    ensures Count(a + b, c) == Count(a, c) + Count(b, c)
    decreases |a|
  {
    if |a| > 0 {
      CountAppend(a[1..], b, c);
      assert (a + b)[1..] == a[1..] + b;
    } else {
      assert a + b == b;
    }
  }

  /** The occurrences of `c` in all strings of `xs` together. */
  function CountAll(xs: seq<string>, c: char): (n: nat)
    ensures n == Count(Concat(xs), c)
  {
    if |xs| == 0 then 0
    else
      CountAppend(xs[0], Concat(xs[1..]), c);
      Count(xs[0], c) + CountAll(xs[1..], c)
  }

  /** Joining with a one-character separator adds one occurrence of it per gap. */
  lemma {:induction false} CountJoin(xs: seq<string>, c: char)
    requires |xs| >= 1
    ensures Count(Join([c], xs), c) == |xs| - 1 + CountAll(xs, c)
    decreases |xs|
  {
    if |xs| == 1 {
      assert CountAll(xs[1..], c) == 0;
    } else {
      CountJoin(xs[1..], c);
      CountAppend(xs[0] + [c], Join([c], xs[1..]), c);
      CountAppend(xs[0], [c], c);
      assert Count([c], c) == 1 + Count([c][1..], c);
    }
  }

  /** Strings with the same counts one by one have the same count together. */
  lemma {:induction false} CountAllPointwise(xs: seq<string>, ys: seq<string>, c: char)
    requires |xs| == |ys|
    requires forall i :: 0 <= i < |xs| ==> Count(xs[i], c) == Count(ys[i], c)
    ensures CountAll(xs, c) == CountAll(ys, c)
    decreases |xs|
  {
    if |xs| > 0 {
      CountAllPointwise(xs[1..], ys[1..], c);
    }
  }
}
