/** Splitting a string on a single separator character, as .NET's
    `string.Split(" ")` does with the default options: every occurrence of the
    separator cuts, and empty pieces are kept. */
module Strings {

  /** The pieces of `s` between occurrences of `sep`, left to right.
      There is always at least one piece, and no piece contains `sep`. */
  function Split(s: string, sep: char): (parts: seq<string>)
    ensures |parts| >= 1
    ensures forall i :: 0 <= i < |parts| ==> sep !in parts[i]
    decreases |s|
  {
    if |s| == 0 then [""]
    else
      var rest := Split(s[1..], sep);
      if s[0] == sep then [""] + rest
      else [[s[0]] + rest[0]] + rest[1..]
  }

  /** The pieces glued back together with `sep` between neighbours. */
  function Join(parts: seq<string>, sep: char): (s: string)
  {
    if |parts| == 0 then ""
    else if |parts| == 1 then parts[0]
    else parts[0] + [sep] + Join(parts[1..], sep)
  }

  /** The last element of a non-empty sequence (LINQ's `Last()`). */
  function Last<T>(xs: seq<T>): (x: T)
    requires |xs| >= 1
  {
    xs[|xs| - 1]
  }

  /** `t` is the final segment of `s` with respect to `sep`: a suffix of `s`
      that holds no `sep` and is either all of `s` or preceded by a `sep`.
      This is a reference description that does not mention `Split`. */
  ghost predicate IsFinalSegment(s: string, sep: char, t: string)
  {
    && |t| <= |s|
    && t == s[|s| - |t|..]
    && sep !in t
    && (|t| == |s| || s[|s| - |t| - 1] == sep)
  }

  /** Joining the pieces of a split gives back the original string. */
  lemma {:induction false} SplitJoin(s: string, sep: char)
    ensures Join(Split(s, sep), sep) == s
    decreases |s|
  {
    if |s| > 0 {
      var rest := Split(s[1..], sep);
      SplitJoin(s[1..], sep);
      if s[0] == sep {
        assert ([""] + rest)[1..] == rest;
      } else {
        var parts := [[s[0]] + rest[0]] + rest[1..];
        assert parts[1..] == rest[1..];
        if |rest| > 1 {
          assert Join(rest, sep) == rest[0] + [sep] + Join(rest[1..], sep);
        }
      }
    }
  }

  /** Splitting a string that starts with a separator-free prefix `a`: the
      prefix is glued onto the first piece of the rest. */
  lemma {:induction false} SplitAppend(a: string, b: string, sep: char)
    requires sep !in a
    ensures Split(a + b, sep) == [a + Split(b, sep)[0]] + Split(b, sep)[1..]
    decreases |a|
  {
    if |a| > 0 {
      SplitAppend(a[1..], b, sep);
      assert (a + b)[1..] == a[1..] + b;
      assert (a + b)[0] == a[0];
      assert [a[0]] + (a[1..] + Split(b, sep)[0]) == a + Split(b, sep)[0];
    } else {
      var parts := Split(b, sep);
      assert a + b == b;
      assert a + parts[0] == parts[0];
      assert parts == [parts[0]] + parts[1..];
    }
  }

  /** Splitting the join of separator-free pieces gives back the pieces, so
      `Split` and `Join` are inverse to each other. */
  lemma {:induction false} JoinSplit(parts: seq<string>, sep: char)
    requires |parts| >= 1
    requires forall i :: 0 <= i < |parts| ==> sep !in parts[i]
    ensures Split(Join(parts, sep), sep) == parts
    decreases |parts|
  {
    if |parts| == 1 {
      SplitAppend(parts[0], "", sep);
      assert parts[0] + "" == parts[0];
    } else {
      var tail := parts[1..];
      JoinSplit(tail, sep);
      var b := [sep] + Join(tail, sep);
      assert b[0] == sep && b[1..] == Join(tail, sep);
      assert Split(b, sep) == [""] + tail;
      SplitAppend(parts[0], b, sep);
      assert parts[0] + b == Join(parts, sep);
      assert parts[0] + "" == parts[0];
    }
  }

  /** The last of a list of separator-free pieces is the final segment of
      their join. */
  lemma {:induction false} JoinLast(parts: seq<string>, sep: char)
    requires |parts| >= 1
    requires forall i :: 0 <= i < |parts| ==> sep !in parts[i]
    ensures IsFinalSegment(Join(parts, sep), sep, Last(parts))
    decreases |parts|
  {
    if |parts| > 1 {
      var tail := parts[1..];
      JoinLast(tail, sep);
      var j := Join(parts, sep);
      var j' := Join(tail, sep);
      var t := Last(parts);
      assert t == Last(tail);
      assert j == parts[0] + [sep] + j';
      var off := |parts[0]| + 1;
      assert j[off..] == j';
      assert j[off - 1] == sep;
      assert j[|j| - |t|..] == j'[|j'| - |t|..];
      if |t| < |j'| {
        assert j[|j| - |t| - 1] == j'[|j'| - |t| - 1];
      }
    }
  }

  /** The last piece of a split is the final segment of the string. */
  lemma LastOfSplit(s: string, sep: char)
    ensures IsFinalSegment(s, sep, Last(Split(s, sep)))
  {
    SplitJoin(s, sep);
    JoinLast(Split(s, sep), sep);
  }

  /** A separator-free suffix of `s` longer than a final segment would have
      to contain the separator that precedes that segment. */
  lemma LongerSuffixHoldsSeparator(s: string, sep: char, t: string, u: string)
    requires IsFinalSegment(s, sep, t)
    requires |u| <= |s| && u == s[|s| - |u|..]
    ensures |t| < |u| ==> sep in u
  {
    if |t| < |u| {
      var k := |s| - |t| - 1;
      assert u[k - (|s| - |u|)] == s[k] == sep;
    }
  }

  /** A string has exactly one final segment. */
  lemma FinalSegmentUnique(s: string, sep: char, t1: string, t2: string)
    requires IsFinalSegment(s, sep, t1)
    requires IsFinalSegment(s, sep, t2)
    ensures t1 == t2
  {
    LongerSuffixHoldsSeparator(s, sep, t1, t2);
    LongerSuffixHoldsSeparator(s, sep, t2, t1);
  }

  /** The final segment is the last piece of the split, whatever way of
      computing it is used. */
  lemma FinalSegmentIsLastOfSplit(s: string, sep: char, t: string)
    requires IsFinalSegment(s, sep, t)
    ensures Last(Split(s, sep)) == t
  {
    LastOfSplit(s, sep);
    FinalSegmentUnique(s, sep, t, Last(Split(s, sep)));
  }
}
