/**
 * The array combinators the dashboard is written with: `filter`, `.length`
 * of a filter (a count) and `reduce` with `+` (a sum), each folding from the
 * first element to the last as JavaScript does.
 */
module Seqs {

  /** `s.filter(p).length`. */
  function Count<T>(s: seq<T>, p: T -> bool): (n: nat)
    ensures n <= |s|
  {
    if s == [] then 0 else Count(s[..|s| - 1], p) + (if p(s[|s| - 1]) then 1 else 0)
  }

  /** `s.filter(p)`: exactly the elements satisfying `p`, in their original order. */
  function Filter<T>(s: seq<T>, p: T -> bool): (r: seq<T>)
    ensures |r| == Count(s, p)
    ensures forall i :: 0 <= i < |r| ==> p(r[i]) && r[i] in s
    ensures forall x :: x in s && p(x) ==> x in r
  {
    if s == [] then []
    else
      var init := s[..|s| - 1];
      var r := Filter(init, p) + (if p(s[|s| - 1]) then [s[|s| - 1]] else []);
      assert forall x :: x in s ==> x in init || x == s[|s| - 1] by {
        assert s == init + [s[|s| - 1]];
      }
      r
  }

  /** `s.reduce((acc, x) => acc + f(x), 0)`. */
  function SumOf<T>(s: seq<T>, f: T -> real): real {
    if s == [] then 0.0 else SumOf(s[..|s| - 1], f) + f(s[|s| - 1])
  }

  /** `a` is `b` with some elements deleted and the rest kept in order. */
  predicate IsSubsequence<T(==)>(a: seq<T>, b: seq<T>)
    decreases |b|
  {
    if a == [] then true
    else if b == [] then false
    else
      || (a[|a| - 1] == b[|b| - 1] && IsSubsequence(a[..|a| - 1], b[..|b| - 1]))
      || IsSubsequence(a, b[..|b| - 1])
  }

  /** A filter keeps the order of what it keeps. */
  lemma {:induction false} FilterIsSubsequence<T>(s: seq<T>, p: T -> bool)
    ensures IsSubsequence(Filter(s, p), s)
  {
    if s != [] {
      var init := s[..|s| - 1];
      FilterIsSubsequence(init, p);
      var r := Filter(s, p);
      if p(s[|s| - 1]) {
        assert r[..|r| - 1] == Filter(init, p);
      } else {
        assert r == Filter(init, p);
        if r != [] {
          assert r[|r| - 1] == s[|s| - 1] || IsSubsequence(r, init);
        }
      }
    }
  }

  /** A subsequence is no longer than the sequence. */
  lemma {:induction false} SubsequenceLength<T>(a: seq<T>, b: seq<T>)
    requires IsSubsequence(a, b)
    ensures |a| <= |b|
    decreases |b|
  {
    if a != [] {
      if a[|a| - 1] == b[|b| - 1] && IsSubsequence(a[..|a| - 1], b[..|b| - 1]) {
        SubsequenceLength(a[..|a| - 1], b[..|b| - 1]);
      } else {
        SubsequenceLength(a, b[..|b| - 1]);
      }
    }
  }

  /** Deleting elements never increases a count. */
  lemma {:induction false} CountOfSubsequence<T>(a: seq<T>, b: seq<T>, p: T -> bool)
    requires IsSubsequence(a, b)
    ensures Count(a, p) <= Count(b, p)
    decreases |b|
  {
    if a != [] {
      if a[|a| - 1] == b[|b| - 1] && IsSubsequence(a[..|a| - 1], b[..|b| - 1]) {
        CountOfSubsequence(a[..|a| - 1], b[..|b| - 1], p);
      } else {
        CountOfSubsequence(a, b[..|b| - 1], p);
      }
    }
  }

  /** A count under a weaker predicate is at least as large. */
  lemma {:induction false} CountImplies<T>(s: seq<T>, p: T -> bool, q: T -> bool)
    requires forall x :: x in s && p(x) ==> q(x)
    ensures Count(s, p) <= Count(s, q)
  {
    if s != [] {
      CountImplies(s[..|s| - 1], p, q);
    }
  }

  /** Two predicates that no element satisfies together count at most once per element. */
  lemma {:induction false} CountDisjoint<T>(s: seq<T>, p: T -> bool, q: T -> bool)
    requires forall x :: x in s ==> !(p(x) && q(x))
    ensures Count(s, p) + Count(s, q) <= |s|
  {
    if s != [] {
      CountDisjoint(s[..|s| - 1], p, q);
    }
  }

  /** Four predicates of which each element satisfies at most one count at most once per element. */
  lemma {:induction false} CountFourDisjoint<T>(s: seq<T>, p: T -> bool, q: T -> bool, r: T -> bool, t: T -> bool)
    requires forall x :: x in s ==>
      (if p(x) then 1 else 0) + (if q(x) then 1 else 0) + (if r(x) then 1 else 0) + (if t(x) then 1 else 0) <= 1
    ensures Count(s, p) + Count(s, q) + Count(s, r) + Count(s, t) <= |s|
  {
    if s != [] {
      CountFourDisjoint(s[..|s| - 1], p, q, r, t);
    }
  }

  /** Termwise bounds carry over to the sums. */
  lemma {:induction false} SumBound<T>(s: seq<T>, f: T -> real, g: T -> real, h: T -> real)
    requires forall x :: x in s ==> f(x) + g(x) <= h(x)
    ensures SumOf(s, f) + SumOf(s, g) <= SumOf(s, h)
  {
    if s != [] {
      SumBound(s[..|s| - 1], f, g, h);
    }
  }

  /** A filter with a predicate that every element satisfies is the identity. */
  lemma {:induction false} FilterAll<T>(s: seq<T>, p: T -> bool)
    requires forall x :: x in s ==> p(x)
    ensures Filter(s, p) == s
  {
    if s != [] {
      FilterAll(s[..|s| - 1], p);
      assert s == s[..|s| - 1] + [s[|s| - 1]];
    }
  }

  /** A filter keeps each element that satisfies the predicate exactly as often as it occurs, and no other. */
  lemma {:induction false} FilterMultiplicity<T>(s: seq<T>, p: T -> bool, x: T)
    ensures multiset(Filter(s, p))[x] == if p(x) then multiset(s)[x] else 0
  {
    if s != [] {
      var init := s[..|s| - 1];
      FilterMultiplicity(init, p, x);
      assert s == init + [s[|s| - 1]];
    }
  }

  /** A filter keeps each element at most as often as it occurs. */
  lemma {:induction false} FilterMultiset<T>(s: seq<T>, p: T -> bool)
    ensures multiset(Filter(s, p)) <= multiset(s)
  {
    if s != [] {
      var init := s[..|s| - 1];
      FilterMultiset(init, p);
      assert s == init + [s[|s| - 1]];
    }
  }

  /** Two predicates that never hold together and each imply a third count together at most as often as it. */
  lemma {:induction false} CountUnionImplies<T>(s: seq<T>, p: T -> bool, q: T -> bool, r: T -> bool)
    requires forall x :: x in s ==> !(p(x) && q(x)) && (p(x) || q(x) ==> r(x))
    ensures Count(s, p) + Count(s, q) <= Count(s, r)
  {
    if s != [] {
      CountUnionImplies(s[..|s| - 1], p, q, r);
    }
  }

  /** A filter with a predicate no element satisfies keeps nothing. */
  lemma {:induction false} FilterNone<T>(s: seq<T>, p: T -> bool)
    requires forall x :: x in s ==> !p(x)
    ensures Filter(s, p) == []
  {
    if s != [] {
      FilterNone(s[..|s| - 1], p);
    }
  }

  /** A filter with a stronger predicate keeps a subsequence of what the weaker one keeps. */
  lemma {:induction false} FilterMonotone<T>(s: seq<T>, p: T -> bool, q: T -> bool)
    requires forall x :: x in s && p(x) ==> q(x)
    ensures IsSubsequence(Filter(s, p), Filter(s, q))
  {
    if s != [] {
      var init, last := s[..|s| - 1], s[|s| - 1];
      FilterMonotone(init, p, q);
      var a, b := Filter(s, p), Filter(s, q);
      if p(last) {
        assert a[..|a| - 1] == Filter(init, p) && b[..|b| - 1] == Filter(init, q);
      } else if q(last) {
        assert a == Filter(init, p) && b[..|b| - 1] == Filter(init, q);
      } else {
        assert a == Filter(init, p) && b == Filter(init, q);
      }
    }
  }

  /** Filters with predicates that agree on every element keep the same elements. */
  lemma {:induction false} FilterSame<T>(s: seq<T>, p: T -> bool, q: T -> bool)
    requires forall x :: x in s ==> (p(x) <==> q(x))
    ensures Filter(s, p) == Filter(s, q)
  {
    if s != [] {
      FilterSame(s[..|s| - 1], p, q);
    }
  }

  /** A count does not depend on the order of the elements. */
  lemma {:induction false} CountPermutation<T>(a: seq<T>, b: seq<T>, p: T -> bool)
    requires multiset(a) == multiset(b)
    ensures Count(a, p) == Count(b, p)
    decreases |a|
  {
    if a != [] {
      var x, a' := a[|a| - 1], a[..|a| - 1];
      assert a == a' + [x];
      assert x in multiset(b);
      var k := IndexOf(b, x);
      var b' := b[..k] + b[k + 1..];
      assert b == b[..k] + [x] + b[k + 1..];
      assert multiset(b) == multiset(b') + multiset{x};
      assert multiset(a) == multiset(a') + multiset{x};
      assert multiset(a') == multiset(a) - multiset{x};
      assert multiset(b') == multiset(b) - multiset{x};
      CountPermutation(a', b', p);
      CountRemove(b, k, p);
    }
  }

  /** Removing the element at `k` takes its contribution off the count. */
  lemma {:induction false} CountRemove<T>(s: seq<T>, k: nat, p: T -> bool)
    requires k < |s|
    ensures Count(s, p) == Count(s[..k] + s[k + 1..], p) + (if p(s[k]) then 1 else 0)
  {
    if k < |s| - 1 {
      var init := s[..|s| - 1];
      CountRemove(init, k, p);
      assert (s[..k] + s[k + 1..])[..|s| - 2] == init[..k] + init[k + 1..];
    } else {
      assert s[..k] + s[k + 1..] == s[..|s| - 1];
    }
  }

  /** A sum does not depend on the order of the terms (exact arithmetic). */
  lemma {:induction false} SumPermutation<T>(a: seq<T>, b: seq<T>, f: T -> real)
    requires multiset(a) == multiset(b)
    ensures SumOf(a, f) == SumOf(b, f)
    decreases |a|
  {
    if a != [] {
      var x, a' := a[|a| - 1], a[..|a| - 1];
      assert a == a' + [x];
      assert x in multiset(b);
      var k := IndexOf(b, x);
      var b' := b[..k] + b[k + 1..];
      assert b == b[..k] + [x] + b[k + 1..];
      assert multiset(b) == multiset(b') + multiset{x};
      assert multiset(a) == multiset(a') + multiset{x};
      assert multiset(a') == multiset(a) - multiset{x};
      assert multiset(b') == multiset(b) - multiset{x};
      SumPermutation(a', b', f);
      SumRemove(b, k, f);
    }
  }

  /** Removing the term at `k` takes it off the sum. */
  lemma {:induction false} SumRemove<T>(s: seq<T>, k: nat, f: T -> real)
    requires k < |s|
    ensures SumOf(s, f) == SumOf(s[..k] + s[k + 1..], f) + f(s[k])
  {
    if k < |s| - 1 {
      var init := s[..|s| - 1];
      SumRemove(init, k, f);
      assert (s[..k] + s[k + 1..])[..|s| - 2] == init[..k] + init[k + 1..];
    } else {
      assert s[..k] + s[k + 1..] == s[..|s| - 1];
    }
  }

  /** The position of an element that occurs in the sequence. */
  function IndexOf<T(==)>(s: seq<T>, x: T): (k: nat)
    requires x in multiset(s)
    ensures k < |s| && s[k] == x
  {
    if s[0] == x then 0
    else
      assert s == [s[0]] + s[1..];
      1 + IndexOf(s[1..], x)
  }
}
