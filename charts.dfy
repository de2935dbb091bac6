/**
 * The two selections the detail view draws from its rows: the coverage
 * histogram (`renderHist`, app.js:768-790) and the two top-15 lists
 * (`renderTopLists`, app.js:808-824). The chart and the list markup are not
 * modelled; only the counts and the rows they show.
 */
module Charts {
  import opened Wrappers
  import opened JsValues
  import opened Rows
  import opened Seqs
  import opened Sorting
  import opened Summary

  // ----- renderHist -----

  /** A histogram bar: its name and the closed range `[from, to]` of coverage days it counts; no `to` is `Infinity`. */
  datatype Bucket = Bucket(name: string, from: real, to: Option<real>)

  /** The five bars, in order. */
  const Buckets: seq<Bucket> := [
    Bucket("0-15", 0.0, Some(RiskThreshold)),
    Bucket("16-30", 15.00001, Some(30.0)),
    Bucket("31-60", 30.00001, Some(60.0)),
    Bucket("61-120", 60.00001, Some(120.0)),
    Bucket(">120", 120.00001, None)]

  /** `d >= b.from && d <= b.to`. */
  predicate InBucket(d: real, b: Bucket) {
    d >= b.from && (b.to.None? || d <= b.to.value)
  }

  /** The first bar from the `i`-th on whose range holds `d`, as the inner loop with `break` finds it. */
  function FirstBucket(d: real, i: nat): (k: Option<nat>)
    requires i <= |Buckets|
    ensures k.Some? ==> i <= k.value < |Buckets| && InBucket(d, Buckets[k.value])
    ensures k.Some? ==> forall j :: i <= j < k.value ==> !InBucket(d, Buckets[j])
    ensures k.None? ==> forall j :: i <= j < |Buckets| ==> !InBucket(d, Buckets[j])
    decreases |Buckets| - i
  {
    if i == |Buckets| then None
    else if InBucket(d, Buckets[i]) then Some(i)
    else FirstBucket(d, i + 1)
  }

  /** The bar a coverage value is counted in, if any. */
  function BucketOf(d: real): Option<nat> {
    FirstBucket(d, 0)
  }

  /** The ranges do not overlap. */
  lemma BucketsDisjoint(d: real, i: nat, j: nat)
    requires i < j < |Buckets|
    ensures !(InBucket(d, Buckets[i]) && InBucket(d, Buckets[j]))
  {
  }

  /** Since the ranges do not overlap, the first bar that holds a value is the only one: a value lands in bar `k` exactly when `k`'s range holds it. */
  lemma BucketOfIff(d: real, k: nat)
    requires k < |Buckets|
    ensures BucketOf(d) == Some(k) <==> InBucket(d, Buckets[k])
  {
    forall j | 0 <= j < k ensures !(InBucket(d, Buckets[j]) && InBucket(d, Buckets[k])) {
      BucketsDisjoint(d, j, k);
    }
  }

  /**
   * A value lands in no bar exactly when it is negative or lies in one of the
   * gaps the bars leave just above 15, 30, 60 and 120 days.
   */
  lemma BucketOfNone(d: real)
    ensures BucketOf(d).None? <==>
      || d < 0.0
      || (15.0 < d < 15.00001) || (30.0 < d < 30.00001)
      || (60.0 < d < 60.00001) || (120.0 < d < 120.00001)
  {
  }

  /** `counts[k] += 1` for the bar found, if any. */
  function Bump(counts: seq<nat>, k: Option<nat>): (r: seq<nat>)
    ensures |r| == |counts|
  {
    match k
    case None => counts
    case Some(i) => if i < |counts| then counts[i := counts[i] + 1] else counts
  }

  /** The counts `counts[i]` after the loop over the rows: one more in the first bar holding each row's coverage. */
  function Tally(rows: seq<Row>, wh: string, rt: Runtime): (counts: seq<nat>)
    ensures |counts| == |Buckets|
  {
    if rows == [] then [0, 0, 0, 0, 0]
    else Bump(Tally(rows[..|rows| - 1], wh, rt), BucketOf(CoverageOf(rows[|rows| - 1], wh, rt)))
  }

  /** One more row in the loop. */
  lemma TallySnoc(rows: seq<Row>, n: nat, wh: string, rt: Runtime)
    requires n < |rows|
    ensures Tally(rows[..n + 1], wh, rt) == Bump(Tally(rows[..n], wh, rt), BucketOf(CoverageOf(rows[n], wh, rt)))
  {
    assert rows[..n + 1][..n] == rows[..n];
  }

  /** The rows whose coverage lies in the range of bar `k`. */
  function InBar(wh: string, rt: Runtime, k: nat): Row -> bool
    requires k < |Buckets|
  {
    r => InBucket(CoverageOf(r, wh, rt), Buckets[k])
  }

  /** The rows whose coverage lies in no bar. */
  function InNoBar(wh: string, rt: Runtime): Row -> bool {
    r => BucketOf(CoverageOf(r, wh, rt)).None?
  }

  /** Each bar counts exactly the rows whose coverage lies in its range. */
  lemma {:induction false} TallyCounts(rows: seq<Row>, wh: string, rt: Runtime, k: nat)
    requires k < |Buckets|
    ensures Tally(rows, wh, rt)[k] == Count(rows, InBar(wh, rt, k))
  {
    if rows != [] {
      TallyCounts(rows[..|rows| - 1], wh, rt, k);
      BucketOfIff(CoverageOf(rows[|rows| - 1], wh, rt), k);
    }
  }

  /** Every row is counted once, or not at all when its coverage lies in no bar. */
  lemma {:induction false} TallyTotal(rows: seq<Row>, wh: string, rt: Runtime)
    ensures var t := Tally(rows, wh, rt);
      t[0] + t[1] + t[2] + t[3] + t[4] + Count(rows, InNoBar(wh, rt)) == |rows|
  {
    if rows != [] {
      TallyTotal(rows[..|rows| - 1], wh, rt);
    }
  }

  /** Every SKU at risk (0 < d < 15) is in the first bar. */
  lemma RiskInFirstBar(rows: seq<Row>, wh: string, rt: Runtime)
    ensures Count(rows, AtRisk(wh, rt)) <= Tally(rows, wh, rt)[0]
  {
    TallyCounts(rows, wh, rt, 0);
    CountImplies(rows, AtRisk(wh, rt), InBar(wh, rt, 0));
  }

  /** The two upper bars count only overstocked SKUs (d > 60). */
  lemma UpperBarsOverstocked(rows: seq<Row>, wh: string, rt: Runtime)
    ensures Tally(rows, wh, rt)[3] + Tally(rows, wh, rt)[4] <= Count(rows, Overstocked(wh, rt))
  {
    TallyCounts(rows, wh, rt, 3);
    TallyCounts(rows, wh, rt, 4);
    CountUnionImplies(rows, InBar(wh, rt, 3), InBar(wh, rt, 4), Overstocked(wh, rt));
  }

  /** The counting loop of `renderHist`: one pass over the rows, adding each to its bar. */
  method BucketCounts(viewRows: seq<Row>, wh: string, rt: Runtime) returns (counts: array<nat>)
    ensures fresh(counts)
    ensures counts[..] == Tally(viewRows, wh, rt)
  {
    counts := new nat[|Buckets|](_ => 0);
    assert counts[..] == Tally(viewRows[..0], wh, rt);
    for n := 0 to |viewRows|
      invariant counts.Length == |Buckets|
      invariant counts[..] == Tally(viewRows[..n], wh, rt)
    {
      var d := CoverageOf(viewRows[n], wh, rt);
      AddToBar(counts, d);
      TallySnoc(viewRows, n, wh, rt);
    }
    assert viewRows[..|viewRows|] == viewRows;
  }

  /** The inner loop of `renderHist`: find the first bar whose range holds `d`, count it there and stop. */
  method AddToBar(counts: array<nat>, d: real)
    requires counts.Length == |Buckets|
    modifies counts
    ensures counts[..] == Bump(old(counts[..]), BucketOf(d))
  {
    var i := 0;
    while i < |Buckets|
      invariant 0 <= i <= |Buckets|
      invariant counts[..] == old(counts[..])
      invariant forall j :: 0 <= j < i ==> !InBucket(d, Buckets[j])
    {
      var b := Buckets[i];
      if d >= b.from && (b.to.None? || d <= b.to.value) {
        counts[i] := counts[i] + 1;
        return;
      }
      i := i + 1;
    }
  }

  // ----- renderTopLists -----

  /** The length of each list. */
  const TopSize: nat := 15

  /** `.slice(0, 15)`. */
  function TakeTop<T>(s: seq<T>): (t: seq<T>)
    ensures |t| == if |s| < TopSize then |s| else TopSize
    ensures forall i :: 0 <= i < |t| ==> t[i] == s[i]
  {
    if |s| <= TopSize then s else s[..TopSize]
  }

  /** `safeNum(r[m.inv]) > 0`. */
  function HasStock(wh: string, rt: Runtime): Row -> bool {
    r => InvOf(r, wh, rt) > 0.0
  }

  /** `cmp(a, b) <= 0` for `(a, b) => safeNum(b[m.cobDias]) - safeNum(a[m.cobDias])`: highest coverage first. */
  function HigherCoverageFirst(wh: string, rt: Runtime): (Row, Row) -> bool {
    (a: Row, b: Row) => CoverageOf(b, wh, rt) - CoverageOf(a, wh, rt) <= 0.0
  }

  /** `cmp(a, b) <= 0` for `(a, b) => safeNum(a[m.cobDias]) - safeNum(b[m.cobDias])`: lowest coverage first. */
  function LowerCoverageFirst(wh: string, rt: Runtime): (Row, Row) -> bool {
    (a: Row, b: Row) => CoverageOf(a, wh, rt) - CoverageOf(b, wh, rt) <= 0.0
  }

  /** The overstock list: the rows with stock, highest coverage first, the first 15. */
  function TopOverstock(view: seq<Row>, wh: string, rt: Runtime): seq<Row> {
    TakeTop(SortBy(Filter(view, HasStock(wh, rt)), HigherCoverageFirst(wh, rt)))
  }

  /** The risk list: every row (stock or not), lowest coverage first, the first 15. */
  function TopRisk(view: seq<Row>, wh: string, rt: Runtime): seq<Row> {
    TakeTop(SortBy(view, LowerCoverageFirst(wh, rt)))
  }

  /** Both coverage orders are consistent comparators. */
  lemma CoverageOrdersArePreorders(wh: string, rt: Runtime)
    ensures TotalPreorder(HigherCoverageFirst(wh, rt))
    ensures TotalPreorder(LowerCoverageFirst(wh, rt))
  {
  }

  /**
   * The first 15 of a sorted copy are in order, are taken from the input, and
   * may precede every element left out.
   */
  lemma TopOfSorted<T(!new)>(s: seq<T>, leq: (T, T) -> bool)
    requires TotalPreorder(leq)
    ensures var top := TakeTop(SortBy(s, leq));
      && SortedBy(top, leq)
      && multiset(top) <= multiset(s)
      && forall x, y :: x in s && x !in top && y in top ==> leq(y, x)
  {
    var sorted := SortBy(s, leq);
    SortBySorted(s, leq);
    var top := TakeTop(sorted);
    var k := |top|;
    assert sorted == top + sorted[k..];
    assert multiset(sorted) == multiset(top) + multiset(sorted[k..]);
    forall a | 0 <= a < k ensures sorted[a] in top {
      assert top[a] == sorted[a];
    }
    forall x, y | x in s && x !in top && y in top ensures leq(y, x) {
      assert x in multiset(sorted);
      var a :| 0 <= a < |sorted| && sorted[a] == x;
      var b :| 0 <= b < k && top[b] == y;
      assert sorted[b] == y;
    }
  }

  /** The overstock list holds min(15, number of rows with stock) rows of the view, all with stock. */
  lemma TopOverstockRows(view: seq<Row>, wh: string, rt: Runtime)
    ensures var top := TopOverstock(view, wh, rt);
      var n := Count(view, HasStock(wh, rt));
      && |top| == (if n < TopSize then n else TopSize)
      && multiset(top) <= multiset(view)
      && (forall r :: r in top ==> InvOf(r, wh, rt) > 0.0)
  {
    var stocked := Filter(view, HasStock(wh, rt));
    CoverageOrdersArePreorders(wh, rt);
    TopOfSorted(stocked, HigherCoverageFirst(wh, rt));
    FilterMultiset(view, HasStock(wh, rt));
    forall r | r in TopOverstock(view, wh, rt) ensures InvOf(r, wh, rt) > 0.0 {
      assert r in multiset(stocked);
    }
  }

  /**
   * The overstock list is in descending coverage, and no row with stock left
   * out of it has a higher coverage than a listed one.
   */
  lemma TopOverstockOrder(view: seq<Row>, wh: string, rt: Runtime)
    ensures var top := TopOverstock(view, wh, rt);
      && (forall i, j :: 0 <= i < j < |top| ==> CoverageOf(top[i], wh, rt) >= CoverageOf(top[j], wh, rt))
      && (forall r, t :: r in view && InvOf(r, wh, rt) > 0.0 && r !in top && t in top ==>
            CoverageOf(r, wh, rt) <= CoverageOf(t, wh, rt))
  {
    var stocked := Filter(view, HasStock(wh, rt));
    var leq := HigherCoverageFirst(wh, rt);
    CoverageOrdersArePreorders(wh, rt);
    TopOfSorted(stocked, leq);
    var top := TopOverstock(view, wh, rt);
    forall i, j | 0 <= i < j < |top| ensures CoverageOf(top[i], wh, rt) >= CoverageOf(top[j], wh, rt) {
      assert leq(top[i], top[j]);
    }
    forall r, t | r in view && InvOf(r, wh, rt) > 0.0 && r !in top && t in top
      ensures CoverageOf(r, wh, rt) <= CoverageOf(t, wh, rt)
    {
      assert HasStock(wh, rt)(r);
      assert r in stocked;
      assert leq(t, r);
    }
  }

  /** The risk list holds min(15, rows) rows of the view. */
  lemma TopRiskRows(view: seq<Row>, wh: string, rt: Runtime)
    ensures var top := TopRisk(view, wh, rt);
      && |top| == (if |view| < TopSize then |view| else TopSize)
      && multiset(top) <= multiset(view)
  {
    CoverageOrdersArePreorders(wh, rt);
    TopOfSorted(view, LowerCoverageFirst(wh, rt));
  }

  /** The risk list is in ascending coverage, and no row left out of it has a lower coverage than a listed one. */
  lemma TopRiskOrder(view: seq<Row>, wh: string, rt: Runtime)
    ensures var top := TopRisk(view, wh, rt);
      && (forall i, j :: 0 <= i < j < |top| ==> CoverageOf(top[i], wh, rt) <= CoverageOf(top[j], wh, rt))
      && (forall r, t :: r in view && r !in top && t in top ==> CoverageOf(t, wh, rt) <= CoverageOf(r, wh, rt))
  {
    var leq := LowerCoverageFirst(wh, rt);
    CoverageOrdersArePreorders(wh, rt);
    TopOfSorted(view, leq);
    var top := TopRisk(view, wh, rt);
    forall i, j | 0 <= i < j < |top| ensures CoverageOf(top[i], wh, rt) <= CoverageOf(top[j], wh, rt) {
      assert leq(top[i], top[j]);
    }
    forall r, t | r in view && r !in top && t in top ensures CoverageOf(t, wh, rt) <= CoverageOf(r, wh, rt) {
      assert leq(t, r);
    }
  }
}
