/**
 * The JavaScript string operations the document store relies on:
 * `includes`, `indexOf` and `split`. Characters stand for UTF-16 code units.
 */
module Strings {
  import opened Outcomes

  /** `sub` occurs in `s` starting at index `i`. */
  predicate OccursAt(s: string, sub: string, i: nat) {
    i + |sub| <= |s| && s[i..i + |sub|] == sub
  }

  /** `s.includes(sub)`: `sub` occurs somewhere in `s` (the empty string occurs everywhere). */
  predicate Contains(s: string, sub: string) {
    exists i :: 0 <= i <= |s| && OccursAt(s, sub, i)
  }

  /** `p` is a prefix of `s`. */
  predicate IsPrefix(p: string, s: string) {
    |p| <= |s| && s[..|p|] == p
  }

  /** `s.indexOf(sub, from)`: the first occurrence of `sub` at or after `from`. */
  function IndexOfFrom(s: string, sub: string, from: nat): (r: Option<nat>)
    requires from <= |s|
    ensures r.Some? ==> from <= r.value <= |s| && OccursAt(s, sub, r.value)
    ensures forall j :: from <= j <= |s| && OccursAt(s, sub, j) ==> r.Some? && r.value <= j
    decreases |s| - from
  {
    if OccursAt(s, sub, from) then Some(from)
    else if from == |s| then None
    else IndexOfFrom(s, sub, from + 1)
  }

  /** `s.split(c)[0]`: the text before the first `c`, or all of `s` when there is none. */
  function BeforeFirst(s: string, c: char): (r: string)
    ensures IsPrefix(r, s)
    ensures c !in r
    ensures |r| == |s| || s[|r|] == c
  {
    if s == [] then []
    else if s[0] == c then []
    else [s[0]] + BeforeFirst(s[1..], c)
  }

  /**
   * The second piece of `s.split(sep)` runs from the end of the first
   * occurrence of `sep` (at `i`) to the next occurrence after it (at `e`),
   * or to the end of `s` when there is none.
   */
  ghost predicate SecondPiece(s: string, sep: string, i: nat, e: nat) {
    && i + |sep| <= e <= |s|
    && OccursAt(s, sep, i) && (forall j :: 0 <= j < i ==> !OccursAt(s, sep, j))
    && (e == |s| || OccursAt(s, sep, e))
    && (forall j :: i + |sep| <= j < e ==> !OccursAt(s, sep, j))
  }

  /**
   * `s.split(sep)[1]`. A non-empty separator cuts `s` at its non-overlapping
   * occurrences from the left, so the second piece is the text between the
   * first and the second occurrence (or the end of `s`); `undefined` when
   * `sep` does not occur. An empty separator splits `s` into single
   * characters, so the second piece is `s[1]`, if there is one.
   */
  function SplitSecond(s: string, sep: string): (r: Option<string>)
    ensures sep != [] ==> (r.Some? <==> Contains(s, sep))
    ensures sep != [] && r.Some? ==> !Contains(r.value, sep)
    ensures sep == [] ==> r == if |s| >= 2 then Some([s[1]]) else None
    ensures sep != [] && r.Some? ==> exists i: nat, e: nat :: SecondPiece(s, sep, i, e) && r.value == s[i + |sep|..e]
  {
    if sep == [] then
      if |s| >= 2 then Some([s[1]]) else None
    else
      match IndexOfFrom(s, sep, 0)
      case None => None
      case Some(i) =>
        var start := i + |sep|;
        match IndexOfFrom(s, sep, start)
        case None =>
          NoOccurrenceInSuffix(s, sep, start);
          assert forall j :: start <= j < |s| ==> !OccursAt(s, sep, j);
          assert s[start..] == s[start..|s|];
          assert SecondPiece(s, sep, i, |s|);
          Some(s[start..])
        case Some(j) =>
          NoOccurrenceBefore(s, sep, start, j);
          assert SecondPiece(s, sep, i, j);
          Some(s[start..j])
  }

  /** An occurrence inside a slice is an occurrence in the whole string. */
  lemma OccursInSlice(s: string, sub: string, lo: nat, hi: nat, m: nat)
    requires lo <= hi <= |s|
    requires OccursAt(s[lo..hi], sub, m)
    ensures OccursAt(s, sub, lo + m)
  {
    var w := s[lo..hi];
    assert w[m..m + |sub|] == sub;
    forall k | 0 <= k < |sub|
      ensures s[lo + m + k] == sub[k]
    {
      assert w[m + k] == w[m..m + |sub|][k];
    }
    assert s[lo + m..lo + m + |sub|] == sub;
  }

  lemma NoOccurrenceInSuffix(s: string, sub: string, start: nat)
    requires start <= |s|
    requires forall j :: start <= j <= |s| ==> !OccursAt(s, sub, j)
    ensures !Contains(s[start..], sub)
  {
    forall m | 0 <= m <= |s[start..]| && OccursAt(s[start..], sub, m)
      ensures false
    {
      assert s[start..] == s[start..|s|];
      OccursInSlice(s, sub, start, |s|, m);
    }
  }

  lemma NoOccurrenceBefore(s: string, sub: string, start: nat, j: nat)
    requires start <= j <= |s| && sub != []
    requires forall k :: start <= k <= |s| && OccursAt(s, sub, k) ==> j <= k
    ensures !Contains(s[start..j], sub)
  {
    forall m | 0 <= m <= |s[start..j]| && OccursAt(s[start..j], sub, m)
      ensures false
    {
      OccursInSlice(s, sub, start, j, m);
    }
  }

  /** Occurrences in `b` are the occurrences in `a + b` shifted by `|a|`. */
  lemma OccursShift(a: string, b: string, sub: string, m: nat)
    ensures OccursAt(a + b, sub, |a| + m) <==> OccursAt(b, sub, m)
  {
  }

  /** `a + b + c` includes `b`. */
  lemma ContainsInfix(a: string, b: string, c: string)
    ensures Contains(a + b + c, b)
  {
    assert (a + b + c)[|a|..|a| + |b|] == b;
    assert OccursAt(a + b + c, b, |a|);
  }

  /** A string that lacks the first character of `sub` cannot include `sub`. */
  lemma AbsentFirstChar(s: string, sub: string)
    requires sub != [] && sub[0] !in s
    ensures !Contains(s, sub)
  {
  }
}
