/**
 * `median(nums)` (app.js:130-135): the finite values, sorted ascending; `null`
 * when there are none, otherwise the middle value, or the mean of the two
 * middle values when their number is even.
 */
module Median {
  import opened Wrappers
  import opened JsValues
  import opened Sorting

  /** `nums.filter(n => Number.isFinite(n))`, as numbers. */
  function FiniteValues(nums: seq<JsNumber>): (xs: seq<real>)
    ensures |xs| <= |nums|
    ensures forall x :: x in xs <==> Finite(x) in nums
  {
    if nums == [] then []
    else
      var init := nums[..|nums| - 1];
      var last := nums[|nums| - 1];
      assert nums == init + [last];
      FiniteValues(init) + (if last.Finite? then [last.value] else [])
  }

  /** The middle of a sorted list: its middle element, or the mean of the two middle ones; `null` for an empty list. */
  function Middle(arr: seq<real>): Option<real> {
    if |arr| == 0 then None
    else
      var mid := |arr| / 2;
      if |arr| % 2 == 1 then Some(arr[mid]) else Some((arr[mid - 1] + arr[mid]) / 2.0)
  }

  /** The finite values in ascending order: `nums.filter(Number.isFinite).slice().sort((a, b) => a - b)`. */
  function Ascending(nums: seq<JsNumber>): (arr: seq<real>)
    ensures |arr| == 0 <==> forall i :: 0 <= i < |nums| ==> !nums[i].Finite?
  {
    var arr := SortBy(FiniteValues(nums), RealLeq);
    assert forall i :: 0 <= i < |nums| && nums[i].Finite? ==> nums[i].value in FiniteValues(nums);
    if |arr| == 0 then arr
    else
      assert arr[0] in multiset(FiniteValues(nums));
      assert Finite(arr[0]) in nums;
      arr
  }

  /** `median(nums)`. */
  function Median(nums: seq<JsNumber>): (m: Option<real>)
    ensures m.None? <==> forall i :: 0 <= i < |nums| ==> !nums[i].Finite?
  {
    Middle(Ascending(nums))
  }

  /** The sorted finite values are sorted. */
  lemma AscendingSorted(nums: seq<JsNumber>)
    ensures SortedBy(Ascending(nums), RealLeq)
  {
    RealLeqTotalPreorder();
    SortBySorted(FiniteValues(nums), RealLeq);
  }

  /** The number of times each value occurs among the finite values is the number of times it occurs as a finite number. */
  lemma {:induction false} FiniteValuesMultiplicity(nums: seq<JsNumber>, x: real)
    ensures multiset(FiniteValues(nums))[x] == multiset(nums)[Finite(x)]
  {
    if nums != [] {
      var init := nums[..|nums| - 1];
      var last := nums[|nums| - 1];
      assert nums == init + [last];
      FiniteValuesMultiplicity(init, x);
    }
  }

  /** Reordering the input reorders the finite values. */
  lemma FiniteValuesPermutation(a: seq<JsNumber>, b: seq<JsNumber>)
    requires multiset(a) == multiset(b)
    ensures multiset(FiniteValues(a)) == multiset(FiniteValues(b))
  {
    forall x ensures multiset(FiniteValues(a))[x] == multiset(FiniteValues(b))[x] {
      FiniteValuesMultiplicity(a, x);
      FiniteValuesMultiplicity(b, x);
    }
  }

  /** The median does not depend on the order of the input. */
  lemma MedianPermutation(a: seq<JsNumber>, b: seq<JsNumber>)
    requires multiset(a) == multiset(b)
    ensures Median(a) == Median(b)
  {
    FiniteValuesPermutation(a, b);
    AscendingSorted(a);
    AscendingSorted(b);
    SortedRealsUnique(Ascending(a), Ascending(b));
  }

  /** The median lies between the smallest and the largest finite value. */
  lemma MedianBetween(nums: seq<JsNumber>)
    requires Median(nums).Some?
    ensures exists x :: Finite(x) in nums && x <= Median(nums).value
    ensures exists y :: Finite(y) in nums && Median(nums).value <= y
  {
    var arr := Ascending(nums);
    AscendingSorted(nums);
    MiddleBetween(arr);
    assert arr[0] in multiset(FiniteValues(nums)) && arr[|arr| - 1] in multiset(FiniteValues(nums));
    assert arr[0] in FiniteValues(nums) && arr[|arr| - 1] in FiniteValues(nums);
  }

  /** The middle of a sorted list lies between its first and last elements. */
  lemma MiddleBetween(arr: seq<real>)
    requires |arr| > 0 && SortedBy(arr, RealLeq)
    ensures arr[0] <= Middle(arr).value <= arr[|arr| - 1]
  {
    var n := |arr|;
    var mid := n / 2;
    assert RealLeq(arr[0], arr[mid]) || mid == 0;
    assert RealLeq(arr[mid], arr[n - 1]) || mid == n - 1;
    if n % 2 == 0 {
      assert RealLeq(arr[0], arr[mid - 1]) || mid - 1 == 0;
      assert RealLeq(arr[mid - 1], arr[mid]);
    }
  }

  /** The finite values as numbers. */
  function Finites(xs: seq<real>): (nums: seq<JsNumber>)
    ensures |nums| == |xs|
    ensures forall i :: 0 <= i < |xs| ==> nums[i] == Finite(xs[i])
  {
    seq(|xs|, i requires 0 <= i < |xs| => Finite(xs[i]))
  }

  /** Finite numbers are all kept, in order. */
  lemma {:induction false} FiniteValuesOfFinites(xs: seq<real>)
    ensures FiniteValues(Finites(xs)) == xs
  {
    if xs != [] {
      var init := xs[..|xs| - 1];
      FiniteValuesOfFinites(init);
      assert Finites(xs)[..|xs| - 1] == Finites(init);
    }
  }

  /**
   * For numbers already in ascending order the median is the middle one (odd
   * count) or the mean of the two middle ones (even count), read off the input
   * itself.
   */
  lemma MedianOfAscending(xs: seq<real>)
    requires |xs| > 0
    requires SortedBy(xs, RealLeq)
    ensures Median(Finites(xs)) == Some(if |xs| % 2 == 1 then xs[|xs| / 2] else (xs[|xs| / 2 - 1] + xs[|xs| / 2]) / 2.0)
  {
    AscendingOfFinites(xs);
  }

  /** Sorting numbers that are already ascending changes nothing. */
  lemma AscendingOfFinites(xs: seq<real>)
    requires SortedBy(xs, RealLeq)
    ensures Ascending(Finites(xs)) == xs
  {
    FiniteValuesOfFinites(xs);
    AscendingSorted(Finites(xs));
    SortedRealsUnique(Ascending(Finites(xs)), xs);
  }
}
