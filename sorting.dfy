/**
 * `Array.prototype.sort` with a comparator, which ECMAScript requires to be
 * stable: modelled as an insertion sort that places each element before the
 * first later-sorted element it may precede, so equal elements keep their
 * input order.
 */
module Sorting {

  /** `leq` is total and transitive: what a consistent comparator `cmp(a, b) <= 0` gives. */
  ghost predicate TotalPreorder<T(!new)>(leq: (T, T) -> bool) {
    && (forall a, b :: leq(a, b) || leq(b, a))
    && (forall a, b, c :: leq(a, b) && leq(b, c) ==> leq(a, c))
  }

  /** Every element may precede every later one. */
  ghost predicate SortedBy<T>(s: seq<T>, leq: (T, T) -> bool) {
    forall i, j :: 0 <= i < j < |s| ==> leq(s[i], s[j])
  }

  /** Puts `x` in front of the first element of `s` it may precede. */
  function Insert<T>(x: T, s: seq<T>, leq: (T, T) -> bool): (r: seq<T>)
    ensures |r| == |s| + 1
    ensures multiset(r) == multiset(s) + multiset{x}
  {
    if s == [] then [x]
    else if leq(x, s[0]) then [x] + s
    else
      assert s == [s[0]] + s[1..];
      [s[0]] + Insert(x, s[1..], leq)
  }

  /** `[...s].sort(cmp)` with `leq(a, b)` standing for `cmp(a, b) <= 0`: a permutation of `s`. */
  function SortBy<T>(s: seq<T>, leq: (T, T) -> bool): (r: seq<T>)
    ensures |r| == |s|
    ensures multiset(r) == multiset(s)
  {
    if s == [] then []
    else
      assert s == [s[0]] + s[1..];
      Insert(s[0], SortBy(s[1..], leq), leq)
  }

  /** Inserting into a sorted sequence keeps it sorted. */
  lemma {:induction false} InsertSorted<T(!new)>(x: T, s: seq<T>, leq: (T, T) -> bool)
    requires TotalPreorder(leq) && SortedBy(s, leq)
    ensures SortedBy(Insert(x, s, leq), leq)
  {
    if s != [] && !leq(x, s[0]) {
      var rest := Insert(x, s[1..], leq);
      assert SortedBy(s[1..], leq);
      InsertSorted(x, s[1..], leq);
      InsertedAfterHead(x, s, leq);
      var r := [s[0]] + rest;
      forall i, j | 0 <= i < j < |r| ensures leq(r[i], r[j]) {
        if i == 0 {
          assert r[j] == rest[j - 1];
        } else {
          assert r[i] == rest[i - 1] && r[j] == rest[j - 1];
        }
      }
    }
  }

  /** When `x` goes after the head of a sorted `s`, the head may precede everything inserted after it. */
  lemma InsertedAfterHead<T(!new)>(x: T, s: seq<T>, leq: (T, T) -> bool)
    requires TotalPreorder(leq) && SortedBy(s, leq)
    requires s != [] && !leq(x, s[0])
    ensures forall k :: 0 <= k < |Insert(x, s[1..], leq)| ==> leq(s[0], Insert(x, s[1..], leq)[k])
  {
    var rest := Insert(x, s[1..], leq);
    forall k | 0 <= k < |rest| ensures leq(s[0], rest[k]) {
      var e := rest[k];
      assert e in multiset(rest);
      if e != x {
        assert e in multiset(s[1..]);
        var m :| 0 <= m < |s[1..]| && s[1..][m] == e;
        assert s[m + 1] == e;
      }
    }
  }

  /** With a consistent comparator the result is sorted. */
  lemma {:induction false} SortBySorted<T(!new)>(s: seq<T>, leq: (T, T) -> bool)
    requires TotalPreorder(leq)
    ensures SortedBy(SortBy(s, leq), leq)
  {
    if s != [] {
      SortBySorted(s[1..], leq);
      InsertSorted(s[0], SortBy(s[1..], leq), leq);
    }
  }

  /** Numbers in ascending order: the comparator `(a, b) => a - b`. */
  function RealLeq(a: real, b: real): bool {
    a <= b
  }

  /** Two ascending sequences of numbers with the same elements are the same sequence. */
  lemma {:induction false} SortedRealsUnique(a: seq<real>, b: seq<real>)
    requires SortedBy(a, RealLeq) && SortedBy(b, RealLeq)
    requires multiset(a) == multiset(b)
    ensures a == b
    decreases |a|
  {
    if a != [] {
      assert |b| == |multiset(b)| == |a|;
      SortedSameFirst(a, b);
      SortedRealsTail(a);
      SortedRealsTail(b);
      SortedRealsUnique(a[1..], b[1..]);
    }
  }

  /** An ascending sequence starts with its least element, so two with the same elements start alike. */
  lemma SortedSameFirst(a: seq<real>, b: seq<real>)
    requires SortedBy(a, RealLeq) && SortedBy(b, RealLeq)
    requires multiset(a) == multiset(b) && a != [] && b != []
    ensures a[0] == b[0]
  {
    assert a[0] in multiset(b) && b[0] in multiset(a);
    var i :| 0 <= i < |b| && b[i] == a[0];
    var j :| 0 <= j < |a| && a[j] == b[0];
    assert b[0] <= a[0] by { if i > 0 { assert RealLeq(b[0], b[i]); } }
    assert a[0] <= b[0] by { if j > 0 { assert RealLeq(a[0], a[j]); } }
  }

  /** The rest of an ascending sequence is ascending and holds the other elements. */
  lemma SortedRealsTail(a: seq<real>)
    requires SortedBy(a, RealLeq) && a != []
    ensures SortedBy(a[1..], RealLeq)
    ensures multiset(a[1..]) == multiset(a) - multiset{a[0]}
  {
    assert a == [a[0]] + a[1..];
  }

  /** Sorting numbers ascending is a total preorder, so its results are sorted. */
  lemma RealLeqTotalPreorder()
    ensures TotalPreorder(RealLeq)
  {
  }
}
