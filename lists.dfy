// The JavaScript array operations the stores build on: `findIndex`, `filter`
// and `splice(k, 1)`, on immutable sequences.

module Lists {

  /** No value occurs twice in `s`. */
  predicate NoDuplicates<T(==)>(s: seq<T>)
  {
    forall i, j :: 0 <= i < j < |s| ==> s[i] != s[j]
  }

  /** `s.findIndex(y => y === x)`: the first position of `x`, or -1. */
  function IndexOf<T(==)>(s: seq<T>, x: T): (r: int)
    ensures -1 <= r < |s|
    ensures r == -1 <==> x !in s
    ensures 0 <= r ==> s[r] == x && x !in s[..r]
  {
    if s == [] then -1
    else if s[0] == x then 0
    else
      var r := IndexOf(s[1..], x);
      if r == -1 then -1
      else
        assert s[..r + 1] == [s[0]] + s[1..][..r];
        r + 1
  }

  /** Without duplicates, the first position of an element is its only position. */
  lemma IndexOfNoDuplicates<T>(s: seq<T>, i: int)
    requires NoDuplicates(s) && 0 <= i < |s|
    ensures IndexOf(s, s[i]) == i
  {
  }

  /** `r` is `s` with some elements left out and the others kept in their order. */
  ghost predicate IsSubsequence<T>(r: seq<T>, s: seq<T>)
    decreases |s|
  {
    r == [] || (s != [] && ((r[0] == s[0] && IsSubsequence(r[1..], s[1..])) || IsSubsequence(r, s[1..])))
  }

  /** `s.filter(p)`: the elements satisfying `p`, in their order, each as often as in `s`. */
  function Filter<T(!new)>(s: seq<T>, p: T -> bool): (r: seq<T>)
    ensures |r| <= |s|
    ensures forall x :: x in r <==> x in s && p(x)
    ensures forall i :: 0 <= i < |r| ==> p(r[i])
    ensures forall x :: multiset(r)[x] == if p(x) then multiset(s)[x] else 0
    ensures IsSubsequence(r, s)
  {
    if s == [] then []
    else
      var rest := Filter(s[1..], p);
      assert s == [s[0]] + s[1..];
      assert forall x :: x in s <==> x == s[0] || x in s[1..];
      if p(s[0]) then
        assert ([s[0]] + rest)[1..] == rest;
        [s[0]] + rest
      else rest
  }

  /** One step of Filter. */
  lemma FilterCons<T(!new)>(s: seq<T>, p: T -> bool)
    requires s != []
    ensures Filter(s, p) == if p(s[0]) then [s[0]] + Filter(s[1..], p) else Filter(s[1..], p)
  {
  }

  /** Prepending an element commutes with appending a tail. */
  lemma ConsAppend<T>(y: T, a: seq<T>, b: seq<T>)
    ensures [y] + (a + b) == ([y] + a) + b
  {
  }

  /** Filtering one more element at the end adds it at the end when it passes. */
  lemma {:induction false} FilterSnoc<T(!new)>(s: seq<T>, x: T, p: T -> bool)
    ensures Filter(s + [x], p) == Filter(s, p) + (if p(x) then [x] else [])
  {
    hide Filter;
    var tail := if p(x) then [x] else [];
    if s == [] {
      FilterCons([x], p);
      assert [x][1..] == [];
      assert |Filter([], p)| == 0;
    } else {
      var t := s + [x];
      assert t[0] == s[0] && t[1..] == s[1..] + [x];
      FilterCons(t, p);
      FilterCons(s, p);
      FilterSnoc(s[1..], x, p);
      if p(s[0]) {
        ConsAppend(s[0], Filter(s[1..], p), tail);
      }
    }
  }

  /** Filtering keeps every element that passes the test as often as it occurs. */
  lemma {:induction false} FilterAllPass<T(!new)>(s: seq<T>, p: T -> bool)
    requires forall i :: 0 <= i < |s| ==> p(s[i])
    ensures Filter(s, p) == s
  {
    if s != [] {
      FilterAllPass(s[1..], p);
    }
  }

  /** Filtering a list that passes except for a rejected last element gives the list back. */
  lemma {:induction false} FilterAppendRejected<T(!new)>(s: seq<T>, x: T, p: T -> bool)
    requires forall i :: 0 <= i < |s| ==> p(s[i])
    requires !p(x)
    ensures Filter(s + [x], p) == s
  {
    if s == [] {
      assert Filter([x], p) == Filter([x][1..], p);
    } else {
      assert (s + [x])[1..] == s[1..] + [x];
      FilterAppendRejected(s[1..], x, p);
      assert s == [s[0]] + s[1..];
    }
  }

  /** `s.filter(y => y !== x)`: every element but `x`, in order, each as often as in `s`. */
  function Without<T(==,!new)>(s: seq<T>, x: T): (r: seq<T>)
    ensures |r| <= |s|
    ensures forall y :: y in r <==> y in s && y != x
    ensures forall y :: multiset(r)[y] == if y != x then multiset(s)[y] else 0
    ensures IsSubsequence(r, s)
  {
    if s == [] then []
    else
      var rest := Without(s[1..], x);
      assert s == [s[0]] + s[1..];
      assert forall y :: y in s <==> y == s[0] || y in s[1..];
      if s[0] == x then rest
      else
        assert ([s[0]] + rest)[1..] == rest;
        [s[0]] + rest
  }

  /** One step of Without. */
  lemma WithoutCons<T(!new)>(s: seq<T>, x: T)
    requires s != []
    ensures Without(s, x) == if s[0] == x then Without(s[1..], x) else [s[0]] + Without(s[1..], x)
  {
  }

  /** On a list without duplicates, Without drops exactly one element when `x` is present
      and nothing otherwise. */
  lemma {:induction false} WithoutNoDuplicates<T(!new)>(s: seq<T>, x: T)
    requires NoDuplicates(s)
    ensures NoDuplicates(Without(s, x))
    ensures x in s ==> |Without(s, x)| == |s| - 1
    ensures x !in s ==> Without(s, x) == s
  {
    hide Without;
    if s != [] {
      WithoutCons(s, x);
      assert NoDuplicates(s[1..]);
      WithoutNoDuplicates(s[1..], x);
      assert s[0] !in s[1..];
      assert x in s && x != s[0] ==> x in s[1..];
      assert x !in s ==> s == [s[0]] + s[1..];
    }
  }

  /** Appending `x` and then removing it gives the list back. */
  lemma {:induction false} WithoutAppended<T(!new)>(s: seq<T>, x: T)
    requires x !in s
    ensures Without(s + [x], x) == s
  {
    if s == [] {
      assert Without([x], x) == Without([x][1..], x);
    } else {
      assert (s + [x])[1..] == s[1..] + [x];
      WithoutAppended(s[1..], x);
      assert s == [s[0]] + s[1..];
    }
  }

  /** `s.splice(k, 1)`: drop the element at position `k`. */
  function RemoveAt<T>(s: seq<T>, k: int): (r: seq<T>)
    requires 0 <= k < |s|
    ensures |r| == |s| - 1
    ensures multiset(r) == multiset(s) - multiset{s[k]}
    ensures forall i :: 0 <= i < k ==> r[i] == s[i]
    ensures forall i :: k <= i < |r| ==> r[i] == s[i + 1]
  {
    assert s == s[..k] + [s[k]] + s[k + 1..];
    s[..k] + s[k + 1..]
  }

  /** The first element `filter` keeps occurs in `s` no later than any element that passes. */
  lemma {:induction false} FilterHeadComesFirst<T(!new)>(s: seq<T>, p: T -> bool, k: int)
    requires 0 <= k < |s| && p(s[k])
    ensures |Filter(s, p)| > 0 && IndexOf(s, Filter(s, p)[0]) <= k
  {
    if !p(s[0]) {
      FilterHeadComesFirst(s[1..], p, k - 1);
    }
  }

  /** A sequence has at most as many distinct elements as positions. */
  lemma {:induction false} DistinctElementsBound<T>(s: seq<T>)
    ensures |set x | x in s| <= |s|
  {
    if s != [] {
      DistinctElementsBound(s[1..]);
      assert (set x | x in s) == {s[0]} + (set x | x in s[1..]);
    }
  }

  /** A subset is no larger than the set containing it. */
  lemma SubsetSize<T>(a: set<T>, b: set<T>)
    requires a <= b
    ensures |a| <= |b|
  {
    assert b == a + (b - a);
  }

  /** Moving one element across a concatenation. */
  lemma AppendShift<T>(a: seq<T>, x: T, b: seq<T>)
    ensures a + ([x] + b) == (a + [x]) + b
  {
  }

  /** An element of a list without duplicates occurs in it at most once. */
  lemma {:induction false} NoDuplicatesCount<T>(s: seq<T>, x: T)
    requires NoDuplicates(s)
    ensures multiset(s)[x] <= 1
  {
    if s != [] {
      var rest := s[1..];
      assert s == [s[0]] + rest;
      forall i, j | 0 <= i < j < |rest| ensures rest[i] != rest[j] {
        assert rest[i] == s[i + 1] && rest[j] == s[j + 1];
      }
      NoDuplicatesCount(rest, x);
      if x == s[0] {
        forall k | 0 <= k < |rest| ensures rest[k] != x {
          assert rest[k] == s[k + 1];
        }
      }
    }
  }

  /** An element found at two positions occurs at least twice. */
  lemma CountAtTwoPositions<T>(s: seq<T>, i: int, j: int)
    requires 0 <= i < j < |s|
    ensures s[i] == s[j] ==> multiset(s)[s[i]] >= 2
  {
    assert s == s[..j] + ([s[j]] + s[j + 1..]);
    assert s[i] in s[..j];
  }

  /** Reordering a list without duplicates gives a list without duplicates. */
  lemma PermutationNoDuplicates<T>(s: seq<T>, t: seq<T>)
    requires NoDuplicates(s) && multiset(t) == multiset(s)
    ensures NoDuplicates(t)
  {
    forall i, j | 0 <= i < j < |t| ensures t[i] != t[j] {
      NoDuplicatesCount(s, t[i]);
      CountAtTwoPositions(t, i, j);
    }
  }

  /** Where an element of a reordered list sits in the original. */
  lemma PermutedIndex<T>(s: seq<T>, t: seq<T>, k: int) returns (m: int)
    requires multiset(t) == multiset(s) && 0 <= k < |t|
    ensures 0 <= m < |s| && s[m] == t[k]
  {
    assert t[k] in multiset(s);
    m :| 0 <= m < |s| && s[m] == t[k];
  }
}
