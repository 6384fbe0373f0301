/**
 The two pieces of System.IO.Path the extractor uses, for a Windows host:
 the characters invalid in both a file name and a path (which shape the
 `validCharRegex` class), and Path.GetFileName.
 */
module Paths {

  /**
   Path.GetInvalidPathChars() of the .NET Framework: `"`, `<`, `>`, `|` and the
   control characters U+0000..U+001F. Path.GetInvalidFileNameChars() holds all
   of these and more, so this is also the intersection the pattern excludes.
   */
  predicate IsInvalidPathChar(c: char)
  {
    c == '"' || c == '<' || c == '>' || c == '|' || (c as int) < 0x20
  }

  /** A character of the class `[^...]` that the `file` sub-pattern repeats. */
  predicate IsValidPathChar(c: char)
  {
    !IsInvalidPathChar(c)
  }

  /** The directory and volume separators of a Windows path. */
  predicate IsSeparator(c: char)
  {
    c == '\\' || c == '/' || c == ':'
  }

  /** Path.GetFileName: the longest suffix of `path` holding no separator. */
  function FileName(path: string): (r: string)
    ensures |r| <= |path|
    ensures r == path[|path| - |r|..]
    ensures forall k :: 0 <= k < |r| ==> !IsSeparator(r[k])
    ensures |r| < |path| ==> IsSeparator(path[|path| - |r| - 1])
  {
    if |path| == 0 || IsSeparator(path[|path| - 1]) then ""
    else
      var front := path[..|path| - 1];
      var r' := FileName(front);
      assert path[|path| - (|r'| + 1)..] == front[|front| - |r'|..] + [path[|path| - 1]];
      r' + [path[|path| - 1]]
  }

  /** The file name ends after the separator at `i`. */
  lemma FileNameAfterIndex(path: string, i: nat)
    requires i < |path| && IsSeparator(path[i])
    ensures |FileName(path)| < |path| - i
  {
    SeparatorFreeSuffix(path, FileName(path), i);
  }

  /** A suffix without separators cannot reach back to a separator at `i`. */
  lemma SeparatorFreeSuffix(path: string, r: string, i: nat)
    requires |r| <= |path| && r == path[|path| - |r|..]
    requires forall k :: 0 <= k < |r| ==> !IsSeparator(r[k])
    requires i < |path| && IsSeparator(path[i])
    ensures |r| < |path| - i
  {
    var n := |path| - |r|;
    forall k | n <= k < |path|
      ensures !IsSeparator(path[k])
    {
      assert path[k] == r[k - n];
    }
  }

  /** The file name takes in a separator-free tail. */
  lemma FileNameCoversTail(path: string, i: nat)
    requires i <= |path|
    requires forall k :: i <= k < |path| ==> !IsSeparator(path[k])
    ensures |FileName(path)| >= |path| - i
  {
  }

  /** The file name is exactly what follows the last separator. */
  lemma FileNameAfterSeparator(dir: string, sep: char, name: string)
    requires IsSeparator(sep)
    requires forall k :: 0 <= k < |name| ==> !IsSeparator(name[k])
    ensures FileName(dir + [sep] + name) == name
  {
    var path := dir + [sep] + name;
    LastSeparator(dir, sep, name);
    FileNameAfterIndex(path, |dir|);
    FileNameCoversTail(path, |dir| + 1);
  }

  /** In `dir + [sep] + name`, `sep` is at `|dir|`, and what follows it is `name`, free of separators. */
  lemma LastSeparator(dir: string, sep: char, name: string)
    requires forall k :: 0 <= k < |name| ==> !IsSeparator(name[k])
    ensures var path := dir + [sep] + name;
      && path[|dir|] == sep
      && path[|dir| + 1..] == name
      && forall k :: |dir| + 1 <= k < |path| ==> !IsSeparator(path[k])
  {
    var path := dir + [sep] + name;
    forall k | |dir| + 1 <= k < |path|
      ensures !IsSeparator(path[k])
    {
      assert path[k] == name[k - |dir| - 1];
    }
  }
}
