/** Order-preserving filters, folds and reversal over sequences. */
module Seqs {

  /** `a` is a subsequence of `b`: `a` can be obtained from `b` by deleting
      elements without reordering the rest (matched greedily from the back). */
  predicate IsSubseq<T(==)>(a: seq<T>, b: seq<T>)
    decreases |b|
  {
    if a == [] then true
    else if b == [] then false
    else if a[|a| - 1] == b[|b| - 1] then IsSubseq(a[..|a| - 1], b[..|b| - 1])
    else IsSubseq(a, b[..|b| - 1])
  }

  /** The elements of `s` satisfying `p`, in their original order
      (JavaScript's `Array.prototype.filter`). */
  function Filter<T>(p: T -> bool, s: seq<T>): (r: seq<T>)
    ensures |r| <= |s|
    decreases |s|
  {
    if s == [] then []
    else
      var rest := Filter(p, s[..|s| - 1]);
      if p(s[|s| - 1]) then rest + [s[|s| - 1]] else rest
  }

  /** `Filter` keeps exactly the elements satisfying `p`, each as often as it
      occurs in `s`, and keeps their order. */
  lemma {:induction false} FilterSpec<T(!new)>(p: T -> bool, s: seq<T>)
    ensures forall x :: x in Filter(p, s) <==> x in s && p(x)
    ensures forall x :: multiset(Filter(p, s))[x] == if p(x) then multiset(s)[x] else 0
    ensures IsSubseq(Filter(p, s), s)
    decreases |s|
  {
    if s != [] {
      var s', last := s[..|s| - 1], s[|s| - 1];
      var rest := Filter(p, s');
      FilterSpec(p, s');
      assert s == s' + [last];
      assert multiset(s) == multiset(s') + multiset{last};
      if p(last) {
        assert Filter(p, s) == rest + [last];
        assert multiset(Filter(p, s)) == multiset(rest) + multiset{last};
      } else {
        assert Filter(p, s) == rest;
        assert rest != [] ==> rest[|rest| - 1] != last;
      }
    }
  }

  lemma FilterSnoc<T>(p: T -> bool, s: seq<T>, x: T)
    ensures Filter(p, s + [x]) == Filter(p, s) + (if p(x) then [x] else [])
  {
    assert (s + [x])[..|s + [x]| - 1] == s;
  }

  lemma {:induction false} FilterConcat<T>(p: T -> bool, a: seq<T>, b: seq<T>)
    ensures Filter(p, a + b) == Filter(p, a) + Filter(p, b)
    decreases |b|
  {
    if b == [] {
      assert a + b == a;
    } else {
      var b' := b[..|b| - 1];
      assert a + b == (a + b') + [b[|b| - 1]];
      assert (a + b)[..|a + b| - 1] == a + b';
      FilterConcat(p, a, b');
    }
  }

  lemma FilterCons<T>(p: T -> bool, x: T, s: seq<T>)
    ensures Filter(p, [x] + s) == (if p(x) then [x] else []) + Filter(p, s)
  {
    FilterConcat(p, [x], s);
    assert [x] == [] + [x];
    FilterConcat(p, [], [x]);
  }

  /** `FilterCons` for a sequence known to start with `x`. */
  lemma FilterConsOf<T>(p: T -> bool, x: T, s: seq<T>, xs: seq<T>)
    requires xs == [x] + s
    ensures Filter(p, xs) == (if p(x) then [x] else []) + Filter(p, s)
  {
    FilterCons(p, x, s);
  }

  /** A filter that keeps every element is the identity. */
  lemma {:induction false} FilterKeepsAll<T(!new)>(p: T -> bool, s: seq<T>)
    requires forall x :: x in s ==> p(x)
    ensures Filter(p, s) == s
    decreases |s|
  {
    if s != [] {
      var s', last := s[..|s| - 1], s[|s| - 1];
      assert s == s' + [last];
      assert last in s;
      FilterKeepsAll(p, s');
      assert Filter(p, s) == Filter(p, s') + [last];
    }
  }

  /** Filtering twice is filtering once by the conjunction. */
  lemma {:induction false} FilterFilter<T>(p: T -> bool, q: T -> bool, s: seq<T>)
    ensures Filter(q, Filter(p, s)) == Filter(x => p(x) && q(x), s)
    decreases |s|
  {
    if s != [] {
      var s' := s[..|s| - 1];
      var last := s[|s| - 1];
      FilterFilter(p, q, s');
      if p(last) {
        FilterConcat(q, Filter(p, s'), [last]);
      }
    }
  }

  /** Filters of two permutations of one multiset are permutations of each other. */
  lemma FilterPermutation<T(!new)>(p: T -> bool, a: seq<T>, b: seq<T>)
    requires multiset(a) == multiset(b)
    ensures multiset(Filter(p, a)) == multiset(Filter(p, b))
  {
    FilterSpec(p, a);
    FilterSpec(p, b);
    var fa, fb := Filter(p, a), Filter(p, b);
    assert forall x :: multiset(fa)[x] == multiset(fb)[x];
  }

  /** Sum of `f` over the elements of `s`, folded left to right. */
  function SumBy<T>(s: seq<T>, f: T -> int): int
    decreases |s|
  {
    if s == [] then 0 else SumBy(s[..|s| - 1], f) + f(s[|s| - 1])
  }

  /** The sum over a filtered list, peeling off its last element. */
  lemma SumFilterLast<T>(p: T -> bool, s: seq<T>, f: T -> int)
    requires s != []
    ensures SumBy(Filter(p, s), f)
         == SumBy(Filter(p, s[..|s| - 1]), f) + (if p(s[|s| - 1]) then f(s[|s| - 1]) else 0)
  {
    var rest := Filter(p, s[..|s| - 1]);
    if p(s[|s| - 1]) {
      assert (rest + [s[|s| - 1]])[..|rest|] == rest;
    }
  }

  lemma {:induction false} SumByConcat<T>(a: seq<T>, b: seq<T>, f: T -> int)
    ensures SumBy(a + b, f) == SumBy(a, f) + SumBy(b, f)
    decreases |b|
  {
    if b != [] {
      var b' := b[..|b| - 1];
      assert (a + b)[..|a + b| - 1] == a + b';
      assert (a + b)[|a + b| - 1] == b[|b| - 1];
      SumByConcat(a, b', f);
      assert SumBy(a + b, f) == SumBy(a + b', f) + f(b[|b| - 1]);
      assert SumBy(b, f) == SumBy(b', f) + f(b[|b| - 1]);
    } else {
      assert a + b == a;
    }
  }

  lemma SumBySingleton<T>(x: T, f: T -> int)
    ensures SumBy([x], f) == f(x)
  {
    assert [x][..0] == [];
  }

  lemma SumByCons<T>(x: T, s: seq<T>, f: T -> int)
    ensures SumBy([x] + s, f) == f(x) + SumBy(s, f)
  {
    SumByConcat([x], s, f);
    SumBySingleton(x, f);
  }

  /** Removing the element at `i` takes its term out of the sum. */
  lemma SumByRemove<T>(b: seq<T>, i: nat, f: T -> int)
    requires i < |b|
    ensures SumBy(b, f) == SumBy(b[..i] + b[i + 1..], f) + f(b[i])
  {
    var l, m, r := b[..i], b[i], b[i + 1..];
    assert b == l + ([m] + r);
    SumByConcat(l, [m] + r, f);
    SumByCons(m, r, f);
    SumByConcat(l, r, f);
  }

  /** Removing the element at `i` takes one copy of it out of the multiset. */
  lemma MultisetRemove<T>(b: seq<T>, i: nat)
    requires i < |b|
    ensures multiset(b[..i] + b[i + 1..]) == multiset(b) - multiset{b[i]}
  {
    assert b == b[..i] + [b[i]] + b[i + 1..];
    assert multiset(b) == multiset(b[..i]) + multiset{b[i]} + multiset(b[i + 1..]);
  }

  /** A sum does not depend on the order of its terms. */
  lemma {:induction false} SumByPermutation<T>(a: seq<T>, b: seq<T>, f: T -> int)
    requires multiset(a) == multiset(b)
    ensures SumBy(a, f) == SumBy(b, f)
    decreases |a|
  {
    if a == [] {
      assert |b| == |multiset(b)| == 0;
    } else {
      var x := a[|a| - 1];
      var a' := a[..|a| - 1];
      MultisetRemove(a, |a| - 1);
      assert a[..|a| - 1] + a[|a|..] == a';
      assert x in multiset(b);
      var i :| 0 <= i < |b| && b[i] == x;
      var b' := b[..i] + b[i + 1..];
      MultisetRemove(b, i);
      SumByPermutation(a', b', f);
      SumByRemove(b, i, f);
    }
  }

  /** `s` backwards. */
  function Reverse<T>(s: seq<T>): (r: seq<T>)
    ensures |r| == |s|
    ensures forall i :: 0 <= i < |s| ==> r[i] == s[|s| - 1 - i]
    ensures multiset(r) == multiset(s)
    decreases |s|
  {
    if s == [] then []
    else
      assert s == s[..|s| - 1] + [s[|s| - 1]];
      [s[|s| - 1]] + Reverse(s[..|s| - 1])
  }
}
