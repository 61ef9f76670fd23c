/**
 * Models of the two functions of Go's `strings` package that the generator
 * relies on: `strings.Split(s, sep)` and `strings.Replace(s, old, new, -1)`,
 * both for a non-empty separator, together with the `Join` that undoes a split.
 *
 * Both of Go's functions scan left to right for the leftmost occurrence of the
 * separator and continue after it, so occurrences never overlap.
 */
module StringUtil {
  import opened SeqUtil

  /** `sub` occurs in `s` starting at offset `k`. */
  predicate OccursAt(s: string, sub: string, k: nat) {
    k + |sub| <= |s| && s[k..k + |sub|] == sub
  }

  /** `sub` occurs somewhere in `s`. */
  ghost predicate Contains(s: string, sub: string) {
    exists k: nat :: OccursAt(s, sub, k)
  }

  /** Go's `strings.Split(s, sep)` for a non-empty `sep`. */
  function Split(s: string, sep: string): (parts: seq<string>)
    requires |sep| > 0
    ensures |parts| >= 1
    decreases |s|
  {
    if |s| < |sep| then [s]
    else if s[..|sep|] == sep then [""] + Split(s[|sep|..], sep)
    else
      var rest := Split(s[1..], sep);
      [[s[0]] + rest[0]] + rest[1..]
  }

  /** Go's `strings.Join(parts, sep)`. */
  function Join(parts: seq<string>, sep: string): string
  {
    if |parts| == 0 then ""
    else if |parts| == 1 then parts[0]
    else parts[0] + sep + Join(parts[1..], sep)
  }

  /** Go's `strings.Replace(s, from, to, -1)` for a non-empty `from`. */
  function ReplaceAll(s: string, from: string, to: string): string
    requires |from| > 0
    decreases |s|
  {
    if |s| < |from| then s
    else if s[..|from|] == from then to + ReplaceAll(s[|from|..], from, to)
    else [s[0]] + ReplaceAll(s[1..], from, to)
  }

  /** An occurrence in `s[1..]` is an occurrence in `s`, one place further on. */
  lemma OccursShift(s: string, sub: string, k: nat)
    requires |s| >= 1
    ensures OccursAt(s, sub, k + 1) <==> OccursAt(s[1..], sub, k)
  {
    if k + 1 + |sub| <= |s| {
      assert s[1..][k..k + |sub|] == s[k + 1..k + 1 + |sub|];
    }
  }

  /** The shape of a split, stated once for all three branches of Split. */
  ghost predicate FirstCut(s: string, sep: string, parts: seq<string>)
    requires |sep| > 0
  {
    && |parts| >= 1
    && (|parts| == 1 ==> parts[0] == s && !Contains(s, sep))
    && (|parts| >= 2 ==> CutAt(s, sep, |parts[0]|) && parts == [s[..|parts[0]|]] + Split(s[|parts[0]| + |sep|..], sep))
  }

  /** `m` is the leftmost occurrence of `sep` in `s`. */
  ghost predicate CutAt(s: string, sep: string, m: nat) {
    OccursAt(s, sep, m) && forall k: nat :: k < m ==> !OccursAt(s, sep, k)
  }

  /**
   * Split cuts at the leftmost occurrence of the separator and splits the rest
   * again; with no occurrence it returns the input as the only part. This is
   * the loop of Go's `genSplit`, stated as a property of the result.
   */
  lemma {:induction false} SplitFirstCut(s: string, sep: string)
    requires |sep| > 0
    ensures FirstCut(s, sep, Split(s, sep))
    decreases |s|
  {
    if |s| < |sep| {
      assert Split(s, sep) == [s];
    } else if s[..|sep|] == sep {
      assert OccursAt(s, sep, 0);
    } else {
      SplitFirstCut(s[1..], sep);
      assert !OccursAt(s, sep, 0);
      SplitFirstCutStep(s, sep, Split(s[1..], sep));
    }
  }

  /** The third branch of Split: the first character is not the start of a cut. */
  lemma SplitFirstCutStep(s: string, sep: string, rest: seq<string>)
    requires |sep| > 0 && |s| >= 1 && !OccursAt(s, sep, 0)
    requires FirstCut(s[1..], sep, rest)
    ensures FirstCut(s, sep, [[s[0]] + rest[0]] + rest[1..])
  {
    var parts := [[s[0]] + rest[0]] + rest[1..];
    if |rest| == 1 {
      SplitStepNoCut(s, sep, rest[0]);
      assert parts == [s];
    } else {
      var m' := |rest[0]|;
      var tail := Split(s[1..][m' + |sep|..], sep);
      assert rest[1..] == tail;
      ShiftCut(s, sep, m');
      ShiftParts(s, sep, m', rest[0], tail);
      assert parts == [s[..m' + 1]] + Split(s[m' + 1 + |sep|..], sep);
    }
  }

  /** Third branch of Split when the rest has no occurrence of the separator. */
  lemma SplitStepNoCut(s: string, sep: string, r: string)
    requires |s| >= 1 && !OccursAt(s, sep, 0)
    requires r == s[1..] && !Contains(r, sep)
    ensures [s[0]] + r == s && !Contains(s, sep)
  {
    forall k: nat ensures !OccursAt(s, sep, k) {
      if k > 0 { OccursShift(s, sep, k - 1); }
    }
  }

  /** The leftmost occurrence in `s[1..]` is, one place on, the leftmost in `s`. */
  lemma ShiftCut(s: string, sep: string, m': nat)
    requires |sep| > 0 && |s| >= 1 && !OccursAt(s, sep, 0)
    requires CutAt(s[1..], sep, m')
    ensures CutAt(s, sep, m' + 1)
  {
    OccursShift(s, sep, m');
    forall k: nat | k < m' + 1 ensures !OccursAt(s, sep, k) {
      if k > 0 { OccursShift(s, sep, k - 1); }
    }
  }

  /** The parts around a cut in `s[1..]`, seen from `s`. */
  lemma ShiftParts(s: string, sep: string, m': nat, r0: string, tail: seq<string>)
    requires |sep| > 0 && m' + 1 + |sep| <= |s|
    requires r0 == s[1..][..m']
    requires tail == Split(s[1..][m' + |sep|..], sep)
    ensures [s[0]] + r0 == s[..m' + 1]
    ensures tail == Split(s[m' + 1 + |sep|..], sep)
  {
    assert s[1..][m' + |sep|..] == s[m' + 1 + |sep|..];
  }

  /** Joining the parts of a split with the same separator gives back the input. */
  lemma {:induction false} JoinSplit(s: string, sep: string)
    requires |sep| > 0
    ensures Join(Split(s, sep), sep) == s
    decreases |s|
  {
    var parts := Split(s, sep);
    SplitFirstCut(s, sep);
    if |parts| >= 2 {
      var m := |parts[0]|;
      var tail := s[m + |sep|..];
      JoinSplit(tail, sep);
      assert parts[1..] == Split(tail, sep);
      assert Join(parts, sep) == parts[0] + sep + Join(parts[1..], sep);
      assert s == s[..m] + s[m..m + |sep|] + tail;
    }
  }

  /** No part of a split contains the separator. */
  lemma {:induction false} SplitPartsFree(s: string, sep: string, i: nat)
    requires |sep| > 0
    requires i < |Split(s, sep)|
    ensures !Contains(Split(s, sep)[i], sep)
    decreases |s|
  {
    var parts := Split(s, sep);
    SplitFirstCut(s, sep);
    if |parts| >= 2 {
      var m := |parts[0]|;
      var tail := s[m + |sep|..];
      assert parts == [s[..m]] + Split(tail, sep);
      if i == 0 {
        BeforeCutFree(s, sep, m);
      } else {
        SplitPartsFree(tail, sep, i - 1);
        assert parts[i] == Split(tail, sep)[i - 1];
      }
    }
  }

  /** What comes before the leftmost occurrence holds no occurrence. */
  lemma BeforeCutFree(s: string, sep: string, m: nat)
    requires |sep| > 0 && CutAt(s, sep, m)
    ensures !Contains(s[..m], sep)
  {
    forall k: nat ensures !OccursAt(s[..m], sep, k) {
      if k + |sep| <= m {
        assert s[..m][k..k + |sep|] == s[k..k + |sep|];
        assert !OccursAt(s, sep, k);
      }
    }
  }

  /** A split yields at least two parts exactly when the separator occurs. */
  lemma SplitManyIffContains(s: string, sep: string)
    requires |sep| > 0
    ensures |Split(s, sep)| >= 2 <==> Contains(s, sep)
  {
    SplitFirstCut(s, sep);
  }

  /** For a one-character separator, occurring means being an element. */
  lemma ContainsChar(s: string, c: char)
    ensures Contains(s, [c]) <==> c in s
  {
    if c in s {
      var k :| 0 <= k < |s| && s[k] == c;
      assert OccursAt(s, [c], k);
    }
    if Contains(s, [c]) {
      var k: nat :| OccursAt(s, [c], k);
      assert s[k] == s[k..k + 1][0];
    }
  }

  /** Joining after appending one more part puts one more separator before it. */
  lemma {:induction false} JoinSnoc(parts: seq<string>, x: string, sep: string)
    requires |parts| >= 1
    ensures Join(parts + [x], sep) == Join(parts, sep) + sep + x
    decreases |parts|
  {
    if |parts| == 1 {
      assert parts + [x] == [parts[0], x];
    } else {
      assert (parts + [x])[1..] == parts[1..] + [x];
      JoinSnoc(parts[1..], x, sep);
    }
  }

  /**
   * ReplaceAll cuts at the same places as Split and puts the replacement
   * where each cut was: replacing every occurrence of `from` by `to` is
   * splitting on `from` and joining with `to`.
   */
  lemma {:induction false} ReplaceAllIsJoinSplit(s: string, from: string, to: string)
    requires |from| > 0
    ensures ReplaceAll(s, from, to) == Join(Split(s, from), to)
    decreases |s|
  {
    if |s| < |from| {
    } else if s[..|from|] == from {
      ReplaceAllIsJoinSplit(s[|from|..], from, to);
      var rest := Split(s[|from|..], from);
      assert Split(s, from) == [""] + rest;
      assert ([""] + rest)[1..] == rest;
    } else {
      ReplaceAllIsJoinSplit(s[1..], from, to);
      var rest := Split(s[1..], from);
      var parts := [[s[0]] + rest[0]] + rest[1..];
      assert Split(s, from) == parts;
      if |rest| >= 2 {
        assert parts[1..] == rest[1..];
        Append3([s[0]], rest[0], to, Join(rest[1..], to));
      }
    }
  }

  /** A string without the token is left unchanged by replacing it. */
  lemma ReplaceAllAbsent(s: string, from: string, to: string)
    requires |from| > 0
    requires !Contains(s, from)
    ensures ReplaceAll(s, from, to) == s
  {
    ReplaceAllIsJoinSplit(s, from, to);
    SplitFirstCut(s, from);
  }
}
