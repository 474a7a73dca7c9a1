/** Stable insertion sort by an integer key, and sorted distinct
    sequences under a strict total order. */
module Sorting {
  import opened Seqs

  /** `lt` is irreflexive, transitive and relates any two distinct values. */
  ghost predicate StrictTotalOrder<T(!new)>(lt: (T, T) -> bool) {
    && (forall a :: !lt(a, a))
    && (forall a, b :: a != b ==> lt(a, b) || lt(b, a))
    && (forall a, b, c :: lt(a, b) && lt(b, c) ==> lt(a, c))
  }

  /** `s` is in non-decreasing order of `key`. */
  ghost predicate SortedByKey<T>(s: seq<T>, key: T -> int) {
    forall i, j :: 0 <= i < j < |s| ==> key(s[i]) <= key(s[j])
  }

  /** Inserts `x` in front of the first element whose key is not smaller. */
  function Insert<T>(x: T, s: seq<T>, key: T -> int): (r: seq<T>)
    ensures |r| == |s| + 1
    ensures multiset(r) == multiset(s) + multiset{x}
    decreases |s|
  {
    if s == [] then [x]
    else if key(x) <= key(s[0]) then [x] + s
    else
      assert s == [s[0]] + s[1..];
      [s[0]] + Insert(x, s[1..], key)
  }

  /** Insertion sort by ascending key (JavaScript's stable `Array.prototype.sort`
      with the comparator `(a, b) => key(a) - key(b)`): each element, taken from
      the back, is inserted in front of every element it ties with, so ties
      keep their original order. */
  function InsertionSort<T>(s: seq<T>, key: T -> int): (r: seq<T>)
    ensures |r| == |s|
    ensures multiset(r) == multiset(s)
    decreases |s|
  {
    if s == [] then []
    else
      assert s == [s[0]] + s[1..];
      Insert(s[0], InsertionSort(s[1..], key), key)
  }

  /** An element no greater than everything in a sorted sequence can go in
      front of it. */
  lemma PrependSorted<T>(h: T, s: seq<T>, key: T -> int)
    requires SortedByKey(s, key)
    requires forall y :: y in s ==> key(h) <= key(y)
    ensures SortedByKey([h] + s, key)
  {
    var r := [h] + s;
    forall i, j | 0 <= i < j < |r|
      ensures key(r[i]) <= key(r[j])
    {
      if i == 0 {
        assert r[j] == s[j - 1];
      } else {
        assert r[i] == s[i - 1] && r[j] == s[j - 1];
      }
    }
  }

  lemma {:induction false} InsertSorted<T>(x: T, s: seq<T>, key: T -> int)
    requires SortedByKey(s, key)
    ensures SortedByKey(Insert(x, s, key), key)
    decreases |s|
  {
    if s != [] && key(x) > key(s[0]) {
      var s' := s[1..];
      var tail := Insert(x, s', key);
      assert SortedByKey(tail, key) by {
        SortedTail(s, key);
        InsertSorted(x, s', key);
      }
      assert forall y :: y in tail ==> key(s[0]) <= key(y) by {
        forall y | y in tail
          ensures key(s[0]) <= key(y)
        {
          assert y in multiset(tail);
          if y != x {
            assert y in multiset(s');
            var k :| 0 <= k < |s'| && s'[k] == y;
            assert s[k + 1] == y;
          }
        }
      }
      assert Insert(x, s, key) == [s[0]] + tail;
      PrependSorted(s[0], tail, key);
    }
  }

  /** The output of `InsertionSort` is in non-decreasing key order. */
  lemma {:induction false} InsertionSortSorted<T>(s: seq<T>, key: T -> int)
    ensures SortedByKey(InsertionSort(s, key), key)
    decreases |s|
  {
    if s != [] {
      InsertionSortSorted(s[1..], key);
      InsertSorted(s[0], InsertionSort(s[1..], key), key);
    }
  }

  /** The values whose key is `c`. */
  function KeyIs<T>(key: T -> int, c: int): T -> bool {
    y => key(y) == c
  }

  /** `x` is inserted in front of every element with its own key. */
  lemma {:induction false} InsertStableClass<T>(x: T, s: seq<T>, key: T -> int, c: int)
    ensures Filter(KeyIs(key, c), Insert(x, s, key))
         == (if key(x) == c then [x] else []) + Filter(KeyIs(key, c), s)
    decreases |s|
  {
    var tie := KeyIs(key, c);
    if s == [] {
      FilterCons(tie, x, []);
    } else if key(x) <= key(s[0]) {
      FilterCons(tie, x, s);
    } else {
      var s' := s[1..];
      var rest := Insert(x, s', key);
      var first: seq<T> := if key(s[0]) == c then [s[0]] else [];
      var mine: seq<T> := if key(x) == c then [x] else [];
      FilterConsOf(tie, s[0], rest, Insert(x, s, key));
      FilterConsOf(tie, s[0], s', s);
      InsertStableClass(x, s', key, c);
      SwapEmpty(first, mine, Filter(tie, s'));
    }
  }

  /** Of two sequences at most one of which is non-empty, either may go
      first. */
  lemma SwapEmpty<T>(a: seq<T>, b: seq<T>, c: seq<T>)
    requires a == [] || b == []
    ensures a + (b + c) == b + (a + c)
  {
    if a == [] {
      assert a + (b + c) == b + c == b + (a + c);
    } else {
      assert a + (b + c) == a + c == b + (a + c);
    }
  }

  /** Stability: the elements with any one key come out in the order they
      went in. */
  lemma {:induction false} InsertionSortStable<T>(s: seq<T>, key: T -> int, c: int)
    ensures Filter(KeyIs(key, c), InsertionSort(s, key)) == Filter(KeyIs(key, c), s)
    decreases |s|
  {
    if s != [] {
      InsertionSortStable(s[1..], key, c);
      InsertStableClass(s[0], InsertionSort(s[1..], key), key, c);
      FilterCons(KeyIs(key, c), s[0], s[1..]);
      assert [s[0]] + s[1..] == s;
    }
  }

  /** The first elements of two key-ordered orderings of one multiset have
      the same (minimal) key. */
  lemma HeadKeysEqual<T>(a: seq<T>, b: seq<T>, key: T -> int)
    requires a != [] && multiset(a) == multiset(b)
    requires SortedByKey(a, key) && SortedByKey(b, key)
    ensures b != [] && key(a[0]) == key(b[0])
  {
    assert a[0] in multiset(b);
    assert b[0] in multiset(a);
    var i :| 0 <= i < |b| && b[i] == a[0];
    var j :| 0 <= j < |a| && a[j] == b[0];
  }

  lemma SortedTail<T>(s: seq<T>, key: T -> int)
    requires s != [] && SortedByKey(s, key)
    ensures SortedByKey(s[1..], key)
  {
    forall i, j | 0 <= i < j < |s| - 1 ensures key(s[1..][i]) <= key(s[1..][j]) {
      assert s[1..][i] == s[i + 1] && s[1..][j] == s[j + 1];
    }
  }

  /** `key` gives different elements of `m` different values. */
  ghost predicate InjectiveOn<T>(m: multiset<T>, key: T -> int) {
    forall x, y :: x in m && y in m && key(x) == key(y) ==> x == y
  }

  /** Two orderings of one non-empty multiset with an injective key start
      with the same element. */
  lemma HeadsEqual<T>(a: seq<T>, b: seq<T>, key: T -> int)
    requires a != [] && multiset(a) == multiset(b)
    requires SortedByKey(a, key) && SortedByKey(b, key)
    requires InjectiveOn(multiset(a), key)
    ensures b != [] && a[0] == b[0]
  {
    HeadKeysEqual(a, b, key);
    assert a[0] in multiset(a) && b[0] in multiset(a);
  }

  /** Removing equal heads from equal multisets leaves equal multisets. */
  lemma TailMultisets<T>(a: seq<T>, b: seq<T>)
    requires a != [] && b != [] && a[0] == b[0] && multiset(a) == multiset(b)
    ensures multiset(a[1..]) == multiset(b[1..])
  {
    assert a == [a[0]] + a[1..] && b == [b[0]] + b[1..];
    assert multiset(a) == multiset{a[0]} + multiset(a[1..]);
    assert multiset(b) == multiset{b[0]} + multiset(b[1..]);
    assert multiset(a[1..]) == multiset(a) - multiset{a[0]};
    assert multiset(b[1..]) == multiset(b) - multiset{b[0]};
  }

  /** Sequences with equal heads and equal tails are equal. */
  lemma ConsEqual<T>(a: seq<T>, b: seq<T>)
    requires a != [] && b != [] && a[0] == b[0] && a[1..] == b[1..]
    ensures a == b
  {
    assert a == [a[0]] + a[1..] && b == [b[0]] + b[1..];
  }

  /** A key injective on a sequence's elements is injective on its tail's. */
  lemma InjectiveTail<T>(a: seq<T>, key: T -> int)
    requires a != [] && InjectiveOn(multiset(a), key)
    ensures InjectiveOn(multiset(a[1..]), key)
  {
    assert a == [a[0]] + a[1..];
    assert multiset(a[1..]) <= multiset(a);
  }

  /** Two orderings of one multiset, both ordered by an integer key that is
      injective on its elements, are the same sequence. */
  lemma {:induction false} SortedByKeyUnique<T>(a: seq<T>, b: seq<T>, key: T -> int)
    requires multiset(a) == multiset(b)
    requires SortedByKey(a, key) && SortedByKey(b, key)
    requires InjectiveOn(multiset(a), key)
    ensures a == b
    decreases |a|
  {
    if a == [] {
      assert |b| == |multiset(b)| == 0;
    } else {
      HeadsEqual(a, b, key);
      TailMultisets(a, b);
      InjectiveTail(a, key);
      SortedTail(a, key);
      SortedTail(b, key);
      SortedByKeyUnique(a[1..], b[1..], key);
      ConsEqual(a, b);
    }
  }

  ghost predicate StrictlySorted<T>(s: seq<T>, lt: (T, T) -> bool) {
    forall i, j :: 0 <= i < j < |s| ==> lt(s[i], s[j])
  }

  /** Adds `x` to a strictly sorted sequence unless it is already there. */
  function InsertDistinct<T(==,!new)>(x: T, s: seq<T>, lt: (T, T) -> bool): (r: seq<T>)
    ensures forall y :: y in r <==> y == x || y in s
    decreases |s|
  {
    if s == [] then [x]
    else if x == s[0] then s
    else if lt(x, s[0]) then [x] + s
    else [s[0]] + InsertDistinct(x, s[1..], lt)
  }

  lemma {:induction false} InsertDistinctSorted<T(!new)>(x: T, s: seq<T>, lt: (T, T) -> bool)
    requires StrictTotalOrder(lt)
    requires StrictlySorted(s, lt)
    ensures StrictlySorted(InsertDistinct(x, s, lt), lt)
    decreases |s|
  {
    if s != [] && x != s[0] && !lt(x, s[0]) {
      var tail := InsertDistinct(x, s[1..], lt);
      InsertDistinctSorted(x, s[1..], lt);
      forall y | y in tail
        ensures lt(s[0], y)
      {
        if y != x {
          var k :| 0 <= k < |s[1..]| && s[1..][k] == y;
          assert s[k + 1] == y;
        }
      }
      var r := [s[0]] + tail;
      forall i, j | 0 <= i < j < |r|
        ensures lt(r[i], r[j])
      {
        if i == 0 {
          assert r[j] in tail;
        } else {
          assert r[i] == tail[i - 1] && r[j] == tail[j - 1];
        }
      }
    }
  }

  /** The distinct elements of `s`, strictly ordered by `lt` (JavaScript's
      `Array.from(new Set(s)).sort(...)`). */
  function SortedDistinct<T(==,!new)>(s: seq<T>, lt: (T, T) -> bool): (r: seq<T>)
    ensures forall y :: y in r <==> y in s
    decreases |s|
  {
    if s == [] then []
    else
      var r := InsertDistinct(s[|s| - 1], SortedDistinct(s[..|s| - 1], lt), lt);
      assert forall y :: y in s <==> y in s[..|s| - 1] || y == s[|s| - 1] by {
        assert s == s[..|s| - 1] + [s[|s| - 1]];
      }
      r
  }

  lemma {:induction false} SortedDistinctSorted<T(!new)>(s: seq<T>, lt: (T, T) -> bool)
    requires StrictTotalOrder(lt)
    ensures StrictlySorted(SortedDistinct(s, lt), lt)
    decreases |s|
  {
    if s != [] {
      SortedDistinctSorted(s[..|s| - 1], lt);
      InsertDistinctSorted(s[|s| - 1], SortedDistinct(s[..|s| - 1], lt), lt);
    }
  }
}
