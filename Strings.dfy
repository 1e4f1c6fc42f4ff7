/** The string operations the generator relies on: JavaScript's
    `String.prototype.indexOf`, `lastIndexOf`, `includes` and `split` (for a
    one-character separator), array indexing that may give `undefined`, the
    coercion of `undefined` inside a template literal, and the repository's own
    `splitOnce`. */
module Strings {
  import opened Wrappers

  /** `sep` occurs in `s` starting at index `i`. */
  predicate OccursAt(s: string, sep: string, i: int)
  {
    0 <= i && i + |sep| <= |s| && s[i..i + |sep|] == sep
  }

  /** `sep` occurs somewhere in `s` (JavaScript's `s.includes(sep)`). */
  ghost predicate Contains(s: string, sep: string)
  {
    exists i :: OccursAt(s, sep, i)
  }

  /** A one-character separator occurs exactly where that character stands. */
  lemma OccursAtChar(s: string, c: char, i: int)
    ensures OccursAt(s, [c], i) <==> 0 <= i < |s| && s[i] == c
  {
    if 0 <= i < |s| && s[i] == c {
      assert s[i..i + 1] == [c];
    }
    if OccursAt(s, [c], i) {
      assert s[i] == s[i..i + 1][0];
    }
  }

  /** `Contains` for a one-character separator is membership of that character. */
  lemma ContainsChar(s: string, c: char)
    ensures Contains(s, [c]) <==> c in s
  {
    if c in s {
      var i :| 0 <= i < |s| && s[i] == c;
      OccursAtChar(s, c, i);
    }
    if Contains(s, [c]) {
      var i :| OccursAt(s, [c], i);
      OccursAtChar(s, c, i);
    }
  }

  /** The first occurrence of `sep` at or after `from`, or -1. */
  function IndexFrom(s: string, sep: string, from: nat): (r: int)
    requires from <= |s|
    ensures r == -1 || (from <= r && OccursAt(s, sep, r))
    ensures forall j :: from <= j && (r == -1 || j < r) ==> !OccursAt(s, sep, j)
    decreases |s| - from
  {
    if from + |sep| > |s| then -1
    else if s[from..from + |sep|] == sep then from
    else IndexFrom(s, sep, from + 1)
  }

  /** `s.indexOf(sep)`: the first index at which `sep` occurs, or -1 when it
      does not occur. An empty `sep` is found at 0. */
  function IndexOf(s: string, sep: string): (r: int)
    ensures r == -1 <==> !Contains(s, sep)
    ensures r != -1 ==> OccursAt(s, sep, r)
    ensures forall j :: 0 <= j && (r == -1 || j < r) ==> !OccursAt(s, sep, j)
  {
    IndexFrom(s, sep, 0)
  }

  /** The last occurrence of `sep` that starts at or before `from`, or -1. */
  function LastIndexFrom(s: string, sep: string, from: int): (r: int)
    ensures r == -1 || (0 <= r <= from && OccursAt(s, sep, r))
    ensures forall j :: r < j <= from ==> !OccursAt(s, sep, j)
    decreases from + 1
  {
    if from < 0 then -1
    else if OccursAt(s, sep, from) then from
    else LastIndexFrom(s, sep, from - 1)
  }

  /** `s.lastIndexOf(sep)`: the last index at which `sep` occurs, or -1 when it
      does not occur. An empty `sep` is found at `|s|`. */
  function LastIndexOf(s: string, sep: string): (r: int)
    ensures r == -1 <==> !Contains(s, sep)
    ensures r != -1 ==> OccursAt(s, sep, r)
    ensures forall j :: r < j ==> !OccursAt(s, sep, j)
  {
    LastIndexFrom(s, sep, |s| - |sep|)
  }

  datatype Direction = Left | Right

  /** `splitOnce(str, separator, dir)`: cut `str` around the first (`Left`) or
      the last (`Right`) occurrence of `separator`; a one-element result when
      `separator` does not occur. */
  function SplitOnce(str: string, separator: string, dir: Direction := Left): (r: seq<string>)
    ensures |r| == 1 || |r| == 2
    ensures |r| == 1 <==> !Contains(str, separator)
    ensures |r| == 1 ==> r[0] == str
    ensures |r| == 2 ==> r[0] + separator + r[1] == str
    ensures |r| == 2 && dir == Left ==> forall j :: 0 <= j < |r[0]| ==> !OccursAt(str, separator, j)
    ensures |r| == 2 && dir == Right ==> forall j :: |r[0]| < j ==> !OccursAt(str, separator, j)
  {
    var idx := if dir == Left then IndexOf(str, separator) else LastIndexOf(str, separator);
    if idx == -1 then [str]
    else
      assert str == str[..idx] + str[idx..idx + |separator|] + str[idx + |separator|..];
      [str[..idx], str[idx + |separator|..]]
  }

  /** With a non-empty separator, the part before a left split holds no
      occurrence of the separator. */
  lemma SplitOnceLeftPartClean(str: string, separator: string)
    requires separator != []
    ensures var r := SplitOnce(str, separator, Left);
            |r| == 2 ==> !Contains(r[0], separator)
  {
    var r := SplitOnce(str, separator, Left);
    if |r| == 2 && Contains(r[0], separator) {
      var j :| OccursAt(r[0], separator, j);
      assert str[..|r[0]|] == r[0];
      assert str[j..j + |separator|] == r[0][j..j + |separator|];
      assert OccursAt(str, separator, j);
      assert false;
    }
  }

  /** With a non-empty separator, the part after a right split holds no
      occurrence of the separator. */
  lemma SplitOnceRightPartClean(str: string, separator: string)
    requires separator != []
    ensures var r := SplitOnce(str, separator, Right);
            |r| == 2 ==> !Contains(r[1], separator)
  {
    var r := SplitOnce(str, separator, Right);
    if |r| == 2 && Contains(r[1], separator) {
      var j :| OccursAt(r[1], separator, j);
      var k := |r[0]| + |separator|;
      assert str[k..] == r[1];
      assert str[k + j..k + j + |separator|] == r[1][j..j + |separator|];
      assert OccursAt(str, separator, k + j);
      assert false;
    }
  }

  /** A string with no occurrence of `c` is returned whole, in either direction. */
  lemma SplitOnceAbsent(str: string, c: char, dir: Direction)
    requires c !in str
    ensures SplitOnce(str, [c], dir) == [str]
  {
    ContainsChar(str, c);
  }

  /** Splitting at the first `c` recovers the two parts around a `c` that has
      none before it. */
  lemma SplitOnceLeftAt(a: string, c: char, b: string)
    requires c !in a
    ensures SplitOnce(a + [c] + b, [c], Left) == [a, b]
  {
    var str := a + [c] + b;
    OccursAtChar(str, c, |a|);
    var r := SplitOnce(str, [c], Left);
    assert |r[0]| == |a|;
    assert r[0] == str[..|a|] == a;
    assert r[1] == str[|a| + 1..] == b;
  }

  /** Splitting at the last `c` recovers the two parts around a `c` that has
      none after it. */
  lemma SplitOnceRightAt(a: string, c: char, b: string)
    requires c !in b
    ensures SplitOnce(a + [c] + b, [c], Right) == [a, b]
  {
    var str := a + [c] + b;
    OccursAtChar(str, c, |a|);
    var r := SplitOnce(str, [c], Right);
    assert |r[0]| == |a|;
    assert r[0] == str[..|a|] == a;
    assert r[1] == str[|a| + 1..] == b;
  }

  /** `s.split(c)` for a one-character separator: the maximal runs of `s`
      between occurrences of `c`, in order. */
  function Split(s: string, c: char): (r: seq<string>)
    ensures |r| >= 1
    decreases |s|
  {
    var i := IndexOf(s, [c]);
    if i == -1 then [s] else [s[..i]] + Split(s[i + 1..], c)
  }

  /** `parts.join(c)`. */
  function Join(parts: seq<string>, c: char): string
    requires |parts| >= 1
    decreases |parts|
  {
    if |parts| == 1 then parts[0] else parts[0] + [c] + Join(parts[1..], c)
  }

  /** One step of `split`: the part before the first separator, then the
      split of the rest. */
  lemma SplitStep(s: string, c: char)
    requires c in s
    ensures var i := IndexOf(s, [c]);
            0 <= i < |s| && s[i] == c && c !in s[..i] &&
            Split(s, c) == [s[..i]] + Split(s[i + 1..], c)
  {
    ContainsChar(s, c);
    var i := IndexOf(s, [c]);
    OccursAtChar(s, c, i);
    forall j | 0 <= j < i ensures s[j] != c {
      OccursAtChar(s, c, j);
    }
  }

  /** `split` is undone by `join`. */
  lemma {:induction false} SplitJoin(s: string, c: char)
    ensures Join(Split(s, c), c) == s
    decreases |s|
  {
    if c !in s {
      ContainsChar(s, c);
    } else {
      SplitStep(s, c);
      var i := IndexOf(s, [c]);
      SplitJoin(s[i + 1..], c);
      assert s == s[..i] + [c] + s[i + 1..];
    }
  }

  /** No part of a `split` holds the separator; with `SplitJoin` this
      determines the parts uniquely. */
  lemma {:induction false} SplitPartsClean(s: string, c: char)
    ensures forall k :: 0 <= k < |Split(s, c)| ==> c !in Split(s, c)[k]
    decreases |s|
  {
    if c !in s {
      ContainsChar(s, c);
    } else {
      SplitStep(s, c);
      var i := IndexOf(s, [c]);
      SplitPartsClean(s[i + 1..], c);
      forall k | 0 <= k < |Split(s, c)| ensures c !in Split(s, c)[k] {
        if k > 0 {
          assert Split(s, c)[k] == Split(s[i + 1..], c)[k - 1];
        }
      }
    }
  }

  /** A string without the separator splits into itself alone. */
  lemma SplitAbsent(s: string, c: char)
    requires c !in s
    ensures Split(s, c) == [s]
  {
    ContainsChar(s, c);
  }

  /** The first part of a split ends at the first separator. */
  lemma SplitAround(a: string, c: char, b: string)
    requires c !in a
    ensures Split(a + [c] + b, c) == [a] + Split(b, c)
  {
    var s := a + [c] + b;
    assert s[|a|] == c;
    SplitStep(s, c);
    var i := IndexOf(s, [c]);
    assert i == |a|;
    assert s[..i] == a && s[i + 1..] == b;
  }

  /** `split` yields at least two parts exactly when the separator occurs. */
  lemma SplitCount(s: string, c: char)
    ensures |Split(s, c)| >= 2 <==> c in s
  {
    ContainsChar(s, c);
  }

  /** `xs[i]` on a JavaScript array: `undefined` past the end. */
  function At<T>(xs: seq<T>, i: nat): (r: Option<T>)
    ensures r.Some? <==> i < |xs|
    ensures r.Some? ==> r.value == xs[i]
  {
    if i < |xs| then Some(xs[i]) else None
  }

  /** A value substituted into a template literal: `undefined` is written as
      the text "undefined". */
  function TemplateText(v: Option<string>): (r: string)
    ensures v.Some? ==> r == v.value
    ensures v.None? ==> r == "undefined"
  {
    match v
    case Some(s) => s
    case None => "undefined"
  }
}
