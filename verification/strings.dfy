/**
 * The string operations the rules use: JavaScript's `includes`, `startsWith`, `endsWith`, `split` and
 * `Array.prototype.indexOf`, plus ASCII case folding.
 *
 * The operations the rules call are written index by index (`MatchesFrom`, `ContainsFrom`,
 * `SplitFrom`) so that the verifier can evaluate them on string literals; each is tied by a lemma to a
 * slice-based reference definition (`OccursAt`, `Join`, `FreeOf`).
 */
module Strings {

  /** The `[A-Z]` character class of the rules' regular expressions. */
  predicate IsUpperAscii(c: char)
  {
    'A' <= c <= 'Z'
  }

  /** The path separators of the rules' `[/\\]` character classes. */
  const PathSeps: set<char> := {'/', '\\'}

  predicate IsPathSep(c: char)
  {
    c in PathSeps
  }

  /** ASCII-only case folding, standing in for `String.prototype.toLowerCase`. */
  function LowerChar(c: char): char
  {
    if 'A' <= c <= 'Z' then (c as int + 32) as char else c
  }

  function ToLower(s: string): string
  {
    seq(|s|, i requires 0 <= i < |s| => LowerChar(s[i]))
  }

  /** Reference definition: `p` occurs in `s` starting at index `i`. */
  ghost predicate OccursAt(s: string, p: string, i: nat)
  {
    i + |p| <= |s| && s[i..i + |p|] == p
  }

  /** Compares `s[i + k..]` with `p[k..]` one character at a time. */
  predicate MatchesFrom(s: string, p: string, i: nat, k: nat)
    decreases |p| - k
  {
    k >= |p| || (i + k < |s| && s[i + k] == p[k] && MatchesFrom(s, p, i, k + 1))
  }

  predicate MatchesAt(s: string, p: string, i: nat)
  {
    i + |p| <= |s| && MatchesFrom(s, p, i, 0)
  }

  lemma {:induction false} MatchesFromSlice(s: string, p: string, i: nat, k: nat)
    requires k <= |p| && i + |p| <= |s|
    ensures MatchesFrom(s, p, i, k) <==> s[i + k..i + |p|] == p[k..]
    decreases |p| - k
  {
    if k < |p| {
      MatchesFromSlice(s, p, i, k + 1);
      assert s[i + k..i + |p|] == [s[i + k]] + s[i + k + 1..i + |p|];
      assert p[k..] == [p[k]] + p[k + 1..];
    }
  }

  lemma MatchesAtIsOccurrence(s: string, p: string, i: nat)
    ensures MatchesAt(s, p, i) <==> OccursAt(s, p, i)
  {
    if i + |p| <= |s| {
      MatchesFromSlice(s, p, i, 0);
    }
  }

  /** `s.startsWith(p)` */
  predicate StartsWith(s: string, p: string)
  {
    MatchesAt(s, p, 0)
  }

  /** `s.endsWith(p)` */
  predicate EndsWith(s: string, p: string)
  {
    |p| <= |s| && MatchesAt(s, p, |s| - |p|)
  }

  lemma StartsWithIsPrefix(s: string, p: string)
    ensures StartsWith(s, p) <==> |p| <= |s| && s[..|p|] == p
  {
    MatchesAtIsOccurrence(s, p, 0);
  }

  lemma EndsWithIsSuffix(s: string, p: string)
    ensures EndsWith(s, p) <==> |p| <= |s| && s[|s| - |p|..] == p
  {
    if |p| <= |s| {
      MatchesAtIsOccurrence(s, p, |s| - |p|);
    }
  }

  /** `a + p` ends with `p`. */
  lemma EndsWithConcat(a: string, p: string)
    ensures EndsWith(a + p, p)
  {
    EndsWithIsSuffix(a + p, p);
    assert (a + p)[|a|..] == p;
  }

  /** One character that differs from `p`'s, at the place where `p` would have to sit, rules the suffix out. */
  lemma NotEndsWithAt(s: string, p: string, k: nat)
    requires k < |p| && (|p| <= |s| ==> s[|s| - |p| + k] != p[k])
    ensures !EndsWith(s, p)
  {
    EndsWithIsSuffix(s, p);
    if |p| <= |s| {
      assert s[|s| - |p|..][k] == s[|s| - |p| + k];
    }
  }

  /** A suffix of a suffix is a suffix. */
  lemma EndsWithTransitive(s: string, p: string, q: string)
    requires EndsWith(s, p) && EndsWith(p, q)
    ensures EndsWith(s, q)
  {
    EndsWithIsSuffix(s, p);
    EndsWithIsSuffix(p, q);
    EndsWithIsSuffix(s, q);
    assert s[|s| - |q|..] == s[|s| - |p|..][|p| - |q|..];
  }

  predicate ContainsFrom(s: string, p: string, i: nat)
    decreases |s| - i
  {
    i + |p| <= |s| && (MatchesAt(s, p, i) || ContainsFrom(s, p, i + 1))
  }

  /** `s.includes(p)` */
  predicate Contains(s: string, p: string)
  {
    ContainsFrom(s, p, 0)
  }

  lemma {:induction false} ContainsFromSpec(s: string, p: string, i: nat)
    ensures ContainsFrom(s, p, i) <==> exists j: nat :: i <= j && OccursAt(s, p, j)
    decreases |s| - i
  {
    MatchesAtIsOccurrence(s, p, i);
    if i + |p| <= |s| {
      ContainsFromSpec(s, p, i + 1);
      if exists j: nat :: i <= j && OccursAt(s, p, j) {
        var j: nat :| i <= j && OccursAt(s, p, j);
        if j > i {
          assert i + 1 <= j && OccursAt(s, p, j);
        }
      }
    } else {
      forall j: nat | i <= j
        ensures !OccursAt(s, p, j)
      {
      }
    }
  }

  lemma ContainsIsSubstring(s: string, p: string)
    ensures Contains(s, p) <==> exists j: nat :: OccursAt(s, p, j)
  {
    ContainsFromSpec(s, p, 0);
  }

  /** An occurrence at a known index is enough for `includes`. */
  lemma ContainsAt(s: string, p: string, j: nat)
    requires OccursAt(s, p, j)
    ensures Contains(s, p)
  {
    ContainsIsSubstring(s, p);
  }

  /** The same, for an occurrence found by `MatchesAt`. */
  lemma ContainsMatch(s: string, p: string, j: nat)
    requires MatchesAt(s, p, j)
    ensures Contains(s, p)
  {
    MatchesAtIsOccurrence(s, p, j);
    ContainsAt(s, p, j);
  }

  /** A string built around the pattern contains it. */
  lemma ContainsConcat(a: string, p: string, b: string)
    ensures Contains(a + p + b, p)
  {
    assert (a + p + b)[|a|..|a| + |p|] == p;
    ContainsAt(a + p + b, p, |a|);
  }

  /** A string that lacks one of the pattern's characters does not contain the pattern. */
  lemma MissingCharNotContained(s: string, p: string, k: nat)
    requires k < |p| && p[k] !in s
    ensures !Contains(s, p)
  {
    ContainsIsSubstring(s, p);
    forall j: nat
      ensures !OccursAt(s, p, j)
    {
      if j + |p| <= |s| {
        assert s[j..j + |p|][k] == s[j + k];
      }
    }
  }

  /** Reference definition: no character of `x` is in `seps`. */
  ghost predicate FreeOf(x: string, seps: set<char>)
  {
    forall j :: 0 <= j < |x| ==> x[j] !in seps
  }

  /**
   * `s.split(c)` for a one-character separator or a character class: every occurrence of a
   * separator ends a part, so there is always one part more than there are separators.  The scan is
   * at `i` and the current part began at `start`.
   */
  function SplitFrom(s: string, seps: set<char>, start: nat, i: nat): (parts: seq<string>)
    requires start <= i <= |s|
    ensures |parts| >= 1
    decreases |s| - i
  {
    if i == |s| then [s[start..]]
    else if s[i] in seps then [s[start..i]] + SplitFrom(s, seps, i + 1, i + 1)
    else SplitFrom(s, seps, start, i + 1)
  }

  function Split(s: string, seps: set<char>): (parts: seq<string>)
    ensures |parts| >= 1
  {
    SplitFrom(s, seps, 0, 0)
  }

  /** `parts.join(c)`, the inverse of splitting on `c`. */
  function Join(parts: seq<string>, c: char): string
  {
    if |parts| == 0 then ""
    else if |parts| == 1 then parts[0]
    else parts[0] + [c] + Join(parts[1..], c)
  }

  lemma {:induction false} SplitFromJoin(s: string, c: char, start: nat, i: nat)
    requires start <= i <= |s|
    ensures Join(SplitFrom(s, {c}, start, i), c) == s[start..]
    decreases |s| - i
  {
    if i < |s| {
      if s[i] == c {
        SplitFromJoin(s, c, i + 1, i + 1);
        var rest := SplitFrom(s, {c}, i + 1, i + 1);
        assert ([s[start..i]] + rest)[1..] == rest;
        assert s[start..] == s[start..i] + [c] + s[i + 1..];
      } else {
        SplitFromJoin(s, c, start, i + 1);
      }
    }
  }

  /** Splitting on one character and joining with it gives the string back. */
  lemma SplitJoin(s: string, c: char)
    ensures Join(Split(s, {c}), c) == s
  {
    SplitFromJoin(s, c, 0, 0);
  }

  /** Splitting after a prefix is splitting the rest: indices shift by the prefix's length. */
  lemma {:induction false} SplitFromShift(p: string, t: string, seps: set<char>, start: nat, i: nat)
    requires start <= i <= |t|
    ensures SplitFrom(p + t, seps, |p| + start, |p| + i) == SplitFrom(t, seps, start, i)
    decreases |t| - i
  {
    var s := p + t;
    if i == |t| {
      assert s[|p| + start..] == t[start..];
    } else {
      assert s[|p| + i] == t[i];
      if t[i] in seps {
        assert s[|p| + start..|p| + i] == t[start..i];
        SplitFromShift(p, t, seps, i + 1, i + 1);
      } else {
        SplitFromShift(p, t, seps, start, i + 1);
      }
    }
  }

  /** Scanning over characters that are not separators does not end the current part. */
  lemma {:induction false} SplitFromSkip(s: string, seps: set<char>, start: nat, i: nat, j: nat)
    requires start <= i <= j <= |s|
    requires forall k :: i <= k < j ==> s[k] !in seps
    ensures SplitFrom(s, seps, start, i) == SplitFrom(s, seps, start, j)
    decreases j - i
  {
    if i < j {
      SplitFromSkip(s, seps, start, i + 1, j);
    }
  }

  /** A part free of separators, a separator and the rest split into that part and the rest's parts. */
  lemma SplitCons(p: string, c: char, t: string, seps: set<char>)
    requires FreeOf(p, seps) && c in seps
    ensures Split(p + [c] + t, seps) == [p] + Split(t, seps)
  {
    var s := p + [c] + t;
    forall k | 0 <= k < |p|
      ensures s[k] !in seps
    {
      assert s[k] == p[k];
    }
    SplitFromSkip(s, seps, 0, 0, |p|);
    assert s[|p|] == c;
    assert s[0..|p|] == p;
    assert s == (p + [c]) + t;
    SplitFromShift(p + [c], t, seps, 0, 0);
  }

  /** A string free of separators is a single part. */
  lemma SplitFree(p: string, seps: set<char>)
    requires FreeOf(p, seps)
    ensures Split(p, seps) == [p]
  {
    SplitFromSkip(p, seps, 0, 0, |p|);
    assert p[0..] == p;
  }

  /** Joining parts free of separators with a separator and splitting again gives the parts back. */
  lemma {:induction false} JoinSplit(parts: seq<string>, c: char, seps: set<char>)
    requires |parts| >= 1 && c in seps
    requires forall k :: 0 <= k < |parts| ==> FreeOf(parts[k], seps)
    ensures Split(Join(parts, c), seps) == parts
    decreases |parts|
  {
    assert FreeOf(parts[0], seps);
    if |parts| == 1 {
      SplitFree(parts[0], seps);
    } else {
      SplitCons(parts[0], c, Join(parts[1..], c), seps);
      assert forall k :: 0 <= k < |parts[1..]| ==> parts[1..][k] == parts[k + 1];
      JoinSplit(parts[1..], c, seps);
      assert [parts[0]] + parts[1..] == parts;
    }
  }

  /** Reference definition: no part in `parts` contains a character of `seps`. */
  ghost predicate PartsFreeOf(parts: seq<string>, seps: set<char>)
  {
    forall k :: 0 <= k < |parts| ==> FreeOf(parts[k], seps)
  }

  lemma {:induction false} SplitFromFreeOf(s: string, seps: set<char>, start: nat, i: nat)
    requires start <= i <= |s|
    requires forall j :: start <= j < i ==> s[j] !in seps
    ensures PartsFreeOf(SplitFrom(s, seps, start, i), seps)
    decreases |s| - i
  {
    if i < |s| {
      if s[i] in seps {
        SplitFromFreeOf(s, seps, i + 1, i + 1);
        var rest := SplitFrom(s, seps, i + 1, i + 1);
        var first := s[start..i];
        assert FreeOf(first, seps) by {
          forall j | 0 <= j < |first|
            ensures first[j] !in seps
          {
            assert first[j] == s[start + j];
          }
        }
        assert SplitFrom(s, seps, start, i) == [first] + rest;
      } else {
        SplitFromFreeOf(s, seps, start, i + 1);
      }
    } else {
      var last := s[start..];
      forall j | 0 <= j < |last|
        ensures last[j] !in seps
      {
        assert last[j] == s[start + j];
      }
    }
  }

  /** No part of a split contains a separator. */
  lemma SplitPartsFreeOf(s: string, seps: set<char>)
    ensures PartsFreeOf(Split(s, seps), seps)
  {
    SplitFromFreeOf(s, seps, 0, 0);
  }

  /** `parts.indexOf(x)` searching from `i`: the first index holding `x`, or -1. */
  function IndexOfFrom(parts: seq<string>, x: string, i: nat): (r: int)
    requires i <= |parts|
    ensures r == -1 <==> x !in parts[i..]
    ensures r != -1 ==> i <= r < |parts| && parts[r] == x && x !in parts[i..r]
    decreases |parts| - i
  {
    if i == |parts| then -1
    else if parts[i] == x then i
    else
      assert parts[i..] == [parts[i]] + parts[i + 1..];
      IndexOfFrom(parts, x, i + 1)
  }

  function IndexOf(parts: seq<string>, x: string): (r: int)
    ensures r == -1 <==> x !in parts
    ensures r != -1 ==> 0 <= r < |parts| && parts[r] == x && x !in parts[..r]
  {
    assert parts[0..] == parts;
    IndexOfFrom(parts, x, 0)
  }
}
