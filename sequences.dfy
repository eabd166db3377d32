/**
 * The array operations the handlers use (`filter`, `find`), and what a
 * directory listing guarantees: no file name appears twice.
 */
module Sequences {
  import opened Outcomes

  /** No element occurs twice. */
  ghost predicate Distinct<T>(s: seq<T>) {
    |s| == 0 || (s[0] !in s[1..] && Distinct(s[1..]))
  }

  /** `s.filter(p)`: the elements satisfying `p`, in their original order. */
  function Filter<T(!new)>(s: seq<T>, p: T -> bool): (r: seq<T>)
    ensures |r| <= |s|
    ensures forall x :: x in r <==> x in s && p(x)
    ensures Distinct(s) ==> Distinct(r)
  {
    if s == [] then []
    else
      var rest := Filter(s[1..], p);
      if p(s[0]) then
        assert ([s[0]] + rest)[1..] == rest;
        [s[0]] + rest
      else rest
  }

  /**
   * Filtering one element keeps it or drops it. With `FilterAppend` this
   * fixes `Filter` completely, so it keeps the order of `s`.
   */
  lemma FilterOne<T(!new)>(x: T, p: T -> bool)
    ensures Filter([x], p) == if p(x) then [x] else []
  {
    assert [x][1..] == [];
  }

  /** The index `s.find(p)` takes its element from: the first one satisfying `p`. */
  function FindIndex<T>(s: seq<T>, p: T -> bool): (r: Option<nat>)
    ensures r.Some? ==> r.value < |s| && p(s[r.value])
    ensures r.Some? ==> forall j :: 0 <= j < r.value ==> !p(s[j])
    ensures r.None? <==> forall j :: 0 <= j < |s| ==> !p(s[j])
  {
    if s == [] then None
    else if p(s[0]) then Some(0)
    else match FindIndex(s[1..], p)
      case None => None
      case Some(k) => Some(k + 1)
  }

  /** `s` with every occurrence of `x` removed: what unlinking file `x` leaves. */
  function Without<T(!new, ==)>(s: seq<T>, x: T): (r: seq<T>)
    ensures forall y :: y in r <==> y in s && y != x
  {
    Filter(s, y => y != x)
  }

  /** `s` with every element of `gone` removed. */
  function Except<T(!new, ==)>(s: seq<T>, gone: set<T>): (r: seq<T>)
    ensures forall y :: y in r <==> y in s && y !in gone
  {
    Filter(s, y => y !in gone)
  }

  /** Removing one more element after a set of them is removing the larger set. */
  lemma {:induction false} ExceptOneMore<T(!new)>(s: seq<T>, gone: set<T>, x: T)
    ensures Without(Except(s, gone), x) == Except(s, gone + {x})
  {
    if s != [] {
      ExceptOneMore(s[1..], gone, x);
      var rest := Except(s[1..], gone);
      if s[0] !in gone {
        assert Except(s, gone) == [s[0]] + rest;
        assert ([s[0]] + rest)[0] == s[0] && ([s[0]] + rest)[1..] == rest;
      }
    }
  }

  /** Removing a set that holds no element of `s` leaves `s` unchanged. */
  lemma {:induction false} ExceptNothing<T(!new)>(s: seq<T>, gone: set<T>)
    requires forall y :: y in s ==> y !in gone
    ensures Except(s, gone) == s
  {
    if s != [] {
      ExceptNothing(s[1..], gone);
    }
  }

  /** In a duplicate-free sequence, removing the element at `k` by value removes just that position. */
  lemma {:induction false} WithoutAt<T(!new)>(s: seq<T>, k: nat)
    requires Distinct(s) && k < |s|
    ensures Without(s, s[k]) == s[..k] + s[k + 1..]
  {
    if k == 0 {
      ExceptNothing(s[1..], {s[0]});
      ExceptOneMore(s[1..], {}, s[0]);
      ExceptNothing(s[1..], {});
      assert {} + {s[0]} == {s[0]};
    } else {
      assert s[k] in s[1..];
      WithoutAt(s[1..], k - 1);
      assert s[1..][k - 1] == s[k];
      assert s[1..][..k - 1] + s[1..][k..] == s[1..k] + s[k + 1..];
    }
  }

  /** Filtering distributes over concatenation. */
  lemma {:induction false} FilterAppend<T(!new)>(a: seq<T>, b: seq<T>, p: T -> bool)
    ensures Filter(a + b, p) == Filter(a, p) + Filter(b, p)
  {
    if a != [] {
      assert (a + b)[0] == a[0];
      assert (a + b)[1..] == a[1..] + b;
      FilterAppend(a[1..], b, p);
      var h := if p(a[0]) then [a[0]] else [];
      assert Filter(a, p) == h + Filter(a[1..], p);
      assert Filter(a + b, p) == h + Filter(a[1..] + b, p);
    } else {
      assert a + b == b;
    }
  }

  /** Appending an element that `s` lacks keeps a sequence duplicate-free. */
  lemma {:induction false} DistinctAppend<T>(s: seq<T>, x: T)
    ensures Distinct(s) && x !in s ==> Distinct(s + [x])
  {
    if s != [] && Distinct(s) && x !in s {
      assert (s + [x])[1..] == s[1..] + [x];
      DistinctAppend(s[1..], x);
    }
  }

  /** A file write: the name keeps its place when it exists and is added at the end otherwise. */
  function WithName<T(!new, ==)>(s: seq<T>, x: T): (r: seq<T>)
    ensures forall y :: y in r <==> y in s || y == x
    ensures Distinct(s) ==> Distinct(r)
  {
    if x in s then s
    else DistinctAppend(s, x); s + [x]
  }
}
