// `Array.prototype.sort` with a numeric comparator `(a, b) => key(a) - key(b)`.
// The language guarantees a stable sort; it is modelled as insertion sort,
// which is stable: an element is placed after every earlier element with an
// equal key.

module Sorting {

  /** Keys never decrease along `s`. */
  predicate SortedBy<T>(s: seq<T>, key: T -> int)
  {
    forall i, j :: 0 <= i < j < |s| ==> key(s[i]) <= key(s[j])
  }

  /** Keys strictly increase along `s`. */
  predicate StrictlySortedBy<T>(s: seq<T>, key: T -> int)
  {
    forall i, j :: 0 <= i < j < |s| ==> key(s[i]) < key(s[j])
  }

  /** Insert `x` into a sorted sequence after every element whose key is not larger. */
  function Insert<T>(x: T, s: seq<T>, key: T -> int): (r: seq<T>)
    requires SortedBy(s, key)
    ensures SortedBy(r, key)
    ensures multiset(r) == multiset(s) + multiset{x}
    ensures forall i :: 0 <= i < |r| ==> r[i] == x || r[i] in s
  {
    if s == [] || key(x) < key(s[0]) then
      PrependSorted(x, s, key);
      [x] + s
    else
      var rest := Insert(x, s[1..], key);
      assert s == [s[0]] + s[1..];
      InsertBehind(s[0], x, s[1..], rest, key);
      [s[0]] + rest
  }

  /** The recursive step of Insert: `x` goes behind the first element `y`. */
  lemma InsertBehind<T>(y: T, x: T, t: seq<T>, rest: seq<T>, key: T -> int)
    requires SortedBy([y] + t, key) && key(y) <= key(x)
    requires SortedBy(rest, key) && multiset(rest) == multiset(t) + multiset{x}
    requires forall i :: 0 <= i < |rest| ==> rest[i] == x || rest[i] in t
    ensures SortedBy([y] + rest, key)
    ensures multiset([y] + rest) == multiset([y] + t) + multiset{x}
    ensures forall i :: 0 <= i < |[y] + rest| ==> ([y] + rest)[i] == x || ([y] + rest)[i] in [y] + t
  {
    forall i | 0 <= i < |t| ensures key(y) <= key(t[i]) {
      assert ([y] + t)[0] == y && ([y] + t)[i + 1] == t[i];
    }
    LowerBound(y, x, t, rest, key);
    PrependSorted(y, rest, key);
  }

  /** An element whose key is at most every key of a sorted sequence can go in front. */
  lemma PrependSorted<T>(y: T, s: seq<T>, key: T -> int)
    requires SortedBy(s, key)
    requires s == [] || key(y) <= key(s[0])
    ensures SortedBy([y] + s, key)
  {
    var r := [y] + s;
    forall i, j | 0 <= i < j < |r| ensures key(r[i]) <= key(r[j]) {
      if i == 0 && j > 1 {
        assert key(s[0]) <= key(s[j - 1]);
      }
    }
  }

  lemma LowerBound<T>(y: T, x: T, s: seq<T>, rest: seq<T>, key: T -> int)
    requires key(y) <= key(x) && forall i :: 0 <= i < |s| ==> key(y) <= key(s[i])
    requires forall i :: 0 <= i < |rest| ==> rest[i] == x || rest[i] in s
    ensures forall i :: 0 <= i < |rest| ==> key(y) <= key(rest[i])
  {
    forall i | 0 <= i < |rest| ensures key(y) <= key(rest[i]) {
      if rest[i] != x {
        var k :| 0 <= k < |s| && s[k] == rest[i];
      }
    }
  }

  /** The stable sort of `s` by `key`. */
  function SortBy<T>(s: seq<T>, key: T -> int): (r: seq<T>)
    ensures SortedBy(r, key)
    ensures multiset(r) == multiset(s)
    ensures |r| == |s|
  {
    if s == [] then []
    else
      var init := s[..|s| - 1];
      assert s == init + [s[|s| - 1]];
      assert multiset(s) == multiset(init) + multiset{s[|s| - 1]};
      var r := Insert(s[|s| - 1], SortBy(init, key), key);
      assert |r| == |multiset(r)| == |multiset(s)| == |s|;
      r
  }

  /** An element whose key is not below any key of `s` goes to the end. */
  lemma {:induction false} InsertLast<T>(x: T, s: seq<T>, key: T -> int)
    requires SortedBy(s, key)
    requires forall i :: 0 <= i < |s| ==> key(s[i]) <= key(x)
    ensures Insert(x, s, key) == s + [x]
  {
    if s != [] {
      InsertLast(x, s[1..], key);
    }
  }

  /** Sorting a sorted sequence leaves it as it is. */
  lemma {:induction false} SortSortedIsIdentity<T>(s: seq<T>, key: T -> int)
    requires SortedBy(s, key)
    ensures SortBy(s, key) == s
  {
    hide Insert;
    if s != [] {
      var init := s[..|s| - 1];
      SortSortedIsIdentity(init, key);
      InsertLast(s[|s| - 1], init, key);
      assert init + [s[|s| - 1]] == s;
    }
  }

  /** Inserting a key that is not yet present keeps the keys strictly increasing. */
  lemma {:induction false} InsertStrict<T>(x: T, s: seq<T>, key: T -> int)
    requires StrictlySortedBy(s, key)
    requires forall i :: 0 <= i < |s| ==> key(s[i]) != key(x)
    ensures StrictlySortedBy(Insert(x, s, key), key)
  {
    if s != [] && key(x) >= key(s[0]) {
      InsertStrict(x, s[1..], key);
      var r := Insert(x, s, key);
      forall i | 1 <= i < |r| ensures key(r[0]) < key(r[i]) {
        if r[i] != x {
          var k :| 0 <= k < |s| && s[k] == r[i];
          assert k != 0;
        }
      }
    }
  }

  /** With pairwise distinct keys the sorted result has strictly increasing keys. */
  lemma {:induction false} SortByStrict<T>(s: seq<T>, key: T -> int)
    requires forall i, j :: 0 <= i < j < |s| ==> key(s[i]) != key(s[j])
    ensures StrictlySortedBy(SortBy(s, key), key)
  {
    if s != [] {
      var init := s[..|s| - 1];
      var x := s[|s| - 1];
      SortByStrict(init, key);
      var sorted := SortBy(init, key);
      forall i | 0 <= i < |sorted| ensures key(sorted[i]) != key(x) {
        assert sorted[i] in multiset(init);
        var k :| 0 <= k < |init| && init[k] == sorted[i];
      }
      InsertStrict(x, sorted, key);
    }
  }

  /** Every element of the sorted result comes from the input. */
  lemma SortByMembers<T>(s: seq<T>, key: T -> int, i: int)
    requires 0 <= i < |SortBy(s, key)|
    ensures SortBy(s, key)[i] in s
  {
    assert SortBy(s, key)[i] in multiset(s);
  }

  /** Strictly increasing integer keys climb at least one per position. */
  lemma {:induction false} StrictGap<T>(s: seq<T>, key: T -> int, i: int, j: int)
    requires StrictlySortedBy(s, key) && 0 <= i <= j < |s|
    ensures key(s[j]) >= key(s[i]) + (j - i)
    decreases j - i
  {
    if i < j {
      StrictGap(s, key, i + 1, j);
    }
  }

  /** `n` strictly increasing keys drawn from 1..n are exactly 1, 2, ..., n. */
  lemma StrictKeysAreIota<T>(s: seq<T>, key: T -> int)
    requires StrictlySortedBy(s, key)
    requires forall i :: 0 <= i < |s| ==> 1 <= key(s[i]) <= |s|
    ensures forall i :: 0 <= i < |s| ==> key(s[i]) == i + 1
  {
    forall i | 0 <= i < |s| ensures key(s[i]) == i + 1 {
      StrictGap(s, key, 0, i);
      StrictGap(s, key, i, |s| - 1);
    }
  }

  /** Sorting `n` elements whose keys are 1..n in some arrangement numbers them 1..n in order. */
  lemma SortPermutationKeys<T>(s: seq<T>, key: T -> int)
    requires forall i :: 0 <= i < |s| ==> 1 <= key(s[i]) <= |s|
    requires forall i, j :: 0 <= i < j < |s| ==> key(s[i]) != key(s[j])
    ensures forall i :: 0 <= i < |s| ==> key(SortBy(s, key)[i]) == i + 1
  {
    var r := SortBy(s, key);
    SortByStrict(s, key);
    forall i | 0 <= i < |r| ensures 1 <= key(r[i]) <= |r| {
      SortByMembers(s, key, i);
    }
    StrictKeysAreIota(r, key);
  }

  /** ... and so the element with key `c` lands at position `c - 1`. */
  lemma SortPermutationPlaces<T>(s: seq<T>, key: T -> int, q: int)
    requires forall i :: 0 <= i < |s| ==> 1 <= key(s[i]) <= |s|
    requires forall i, j :: 0 <= i < j < |s| ==> key(s[i]) != key(s[j])
    requires 0 <= q < |s|
    ensures SortBy(s, key)[key(s[q]) - 1] == s[q]
  {
    hide SortBy, Insert;
    var r := SortBy(s, key);
    SortPermutationKeys(s, key);
    assert s[q] in multiset(s);
    assert s[q] in multiset(r);
    var p :| 0 <= p < |r| && r[p] == s[q];
    assert key(r[p]) == p + 1;
  }
}
