/**
 * `basename` of the Deno standard library's path module, POSIX variant, as
 * the column calls it with no extension argument: trailing separators are
 * ignored, and the result is the last `/`-separated component (empty when
 * the path is empty or consists of separators only).
 */
module Paths {

  const Separator: char := '/'

  /** The path without its run of trailing separators. */
  function StripTrailingSlashes(p: string): string
    decreases |p|
  {
    if |p| > 0 && p[|p| - 1] == Separator then StripTrailingSlashes(p[..|p| - 1]) else p
  }

  /** The part of `s` after its last separator (all of `s` when it has none). */
  function LastSegment(s: string): string
    decreases |s|
  {
    if s == [] || s[|s| - 1] == Separator then []
    else LastSegment(s[..|s| - 1]) + [s[|s| - 1]]
  }

  /** Stripping keeps a prefix, removes only separators, and removes all trailing ones. */
  lemma {:induction false} StripShape(p: string)
    ensures var r := StripTrailingSlashes(p);
      && |r| <= |p| && r == p[..|r|]
      && (forall i :: |r| <= i < |p| ==> p[i] == Separator)
      && (r == [] || r[|r| - 1] != Separator)
    decreases |p|
  {
    if |p| > 0 && p[|p| - 1] == Separator {
      var p' := p[..|p| - 1];
      StripShape(p');
      var r := StripTrailingSlashes(p');
      assert p'[..|r|] == p[..|r|];
    }
  }

  /** The last segment is a separator-free suffix, preceded by a separator unless it is everything. */
  lemma {:induction false} LastSegmentShape(s: string)
    ensures var r := LastSegment(s);
      && Separator !in r
      && |r| <= |s| && r == s[|s| - |r|..]
      && (|r| < |s| ==> s[|s| - |r| - 1] == Separator)
    decreases |s|
  {
    if s != [] && s[|s| - 1] != Separator {
      var s' := s[..|s| - 1];
      LastSegmentShape(s');
      var r' := LastSegment(s');
      assert s[|s| - |r'| - 1..] == s'[|s'| - |r'|..] + [s[|s| - 1]];
    }
  }

  /**
   * Independent description of a basename: `b` is a separator-free piece of
   * `p` ending at index `e`, preceded by a separator or the start of `p`,
   * followed only by separators, and `e` is the end of the last non-separator.
   */
  ghost predicate IsBasename(p: string, b: string, e: nat)
  {
    && |b| <= e <= |p|
    && p[e - |b|..e] == b
    && Separator !in b
    && (e == |b| || p[e - |b| - 1] == Separator)
    && (forall i :: e <= i < |p| ==> p[i] == Separator)
    && (e == 0 || p[e - 1] != Separator)
  }

  function Basename(p: string): (r: string)
    ensures Separator !in r
  {
    LastSegmentShape(StripTrailingSlashes(p));
    LastSegment(StripTrailingSlashes(p))
  }

  /** `Basename` picks the piece `IsBasename` describes, ending where stripping stops. */
  lemma BasenameShape(p: string)
    ensures IsBasename(p, Basename(p), |StripTrailingSlashes(p)|)
  {
    var s := StripTrailingSlashes(p);
    var r := LastSegment(s);
    StripShape(p);
    LastSegmentShape(s);
    assert p[|s| - |r|..|s|] == s[|s| - |r|..];
  }

  /** The basename is empty exactly when the path consists of separators only. */
  lemma BasenameEmpty(p: string)
    ensures Basename(p) == [] <==> forall i :: 0 <= i < |p| ==> p[i] == Separator
  {
    var s := StripTrailingSlashes(p);
    StripShape(p);
    LastSegmentShape(s);
    if s != [] {
      assert LastSegment(s) != [];
      assert p[|s| - 1] != Separator;
    }
  }

  /** The run of trailing separators is determined by where the last non-separator is. */
  lemma StripEndUnique(p: string, e: nat)
    requires e <= |p|
    requires forall i :: e <= i < |p| ==> p[i] == Separator
    requires e == 0 || p[e - 1] != Separator
    ensures e == |StripTrailingSlashes(p)|
  {
    StripShape(p);
  }

  /** A separator-free suffix preceded by a separator (or by nothing) is the last segment. */
  lemma LastSegmentUnique(s: string, b: string)
    requires |b| <= |s| && s[|s| - |b|..] == b
    requires Separator !in b
    requires |b| == |s| || s[|s| - |b| - 1] == Separator
    ensures b == LastSegment(s)
  {
    LastSegmentShape(s);
  }

  /** `Basename` is exactly the piece that `IsBasename` describes. */
  lemma BasenameCharacterized(p: string, b: string, e: nat)
    ensures IsBasename(p, b, e) <==> b == Basename(p) && e == |StripTrailingSlashes(p)|
  {
    BasenameShape(p);
    if IsBasename(p, b, e) {
      StripEndUnique(p, e);
      StripShape(p);
      var s := StripTrailingSlashes(p);
      assert s[|s| - |b|..] == p[e - |b|..e];
      LastSegmentUnique(s, b);
    }
  }

  /** A component without separators is its own basename. */
  lemma BasenameOfName(name: string)
    requires Separator !in name
    ensures Basename(name) == name
  {
    BasenameCharacterized(name, name, |name|);
  }

  /** A trailing separator does not change the basename. */
  lemma BasenameIgnoresTrailingSlash(p: string)
    ensures Basename(p + [Separator]) == Basename(p)
  {
    var q := p + [Separator];
    var b := Basename(p);
    var e := |StripTrailingSlashes(p)|;
    BasenameShape(p);
    assert IsBasename(q, b, e) by {
      assert q[e - |b|..e] == p[e - |b|..e];
    }
    BasenameCharacterized(q, b, e);
  }

  /** Taking the basename twice changes nothing. */
  lemma BasenameIdempotent(p: string)
    ensures Basename(Basename(p)) == Basename(p)
  {
    BasenameOfName(Basename(p));
  }

  lemma BasenameExamples()
    ensures Basename("/a/bar") == "bar"
    ensures Basename("a/b/") == "b"
  {
    var p, q := "/a/bar", "a/b/";
    assert p[3..6] == "bar";
    assert IsBasename(p, "bar", 6);
    BasenameCharacterized(p, "bar", 6);
    assert q[2..3] == "b";
    assert IsBasename(q, "b", 3);
    BasenameCharacterized(q, "b", 3);
  }
}
