/**
 * The dashboard's statistics: the per-warehouse summary
 * (`computeSummaryByWarehouse`, app.js:269-319), the global summary over all
 * SKU x warehouse pairs (`computeGlobalSummary`, app.js:321-352) and the
 * indicators of the filtered detail view (`updateDetailKPIs`, app.js:728-766).
 * Every row is one SKU; the rows are the coerced master table.
 */
module Summary {
  import opened Wrappers
  import opened JsValues
  import opened Rows
  import opened Schema
  import opened Seqs
  import opened Median

  /** `TH_RISK`: fewer days of coverage than this (but more than 0) is a stock-out risk. */
  const RiskThreshold: real := 15.0

  /** `TH_OVER`: more days of coverage than this is overstock. */
  const OverThreshold: real := 60.0

  /** `d > 0 && d < TH_RISK`. */
  predicate IsRisk(d: real) {
    0.0 < d < RiskThreshold
  }

  /** `d > TH_OVER`. */
  predicate IsOver(d: real) {
    d > OverThreshold
  }

  /** `safeNum(r[m.inv])`: the stock of the SKU in the warehouse. */
  function InvOf(r: Row, wh: string, rt: Runtime): real {
    SafeNum(r.Get(ColumnName(Inv, wh)), rt)
  }

  /** `safeNum(r[m.prom])`: the average monthly sales. */
  function PromOf(r: Row, wh: string, rt: Runtime): real {
    SafeNum(r.Get(ColumnName(Prom, wh)), rt)
  }

  /** `safeNum(r[m.cobDias])`: the coverage in days. */
  function CoverageOf(r: Row, wh: string, rt: Runtime): real {
    SafeNum(r.Get(ColumnName(CobDias, wh)), rt)
  }

  /** `r[m.cls] === c`: strict equality, so only a text cell can match. */
  predicate HasClass(r: Row, wh: string, c: string) {
    r.Get(ColumnName(Cls, wh)) == Str(c)
  }

  /** The filters the statistics count with. */
  function ClassIs(wh: string, c: string): Row -> bool {
    r => HasClass(r, wh, c)
  }

  function AtRisk(wh: string, rt: Runtime): Row -> bool {
    r => IsRisk(CoverageOf(r, wh, rt))
  }

  function Overstocked(wh: string, rt: Runtime): Row -> bool {
    r => IsOver(CoverageOf(r, wh, rt))
  }

  /** `r[m.cls] === "Sin Mov" && safeNum(r[m.inv]) > 0`: stock that does not sell. */
  function IdleWithStock(wh: string, rt: Runtime): Row -> bool {
    r => HasClass(r, wh, "Sin Mov") && InvOf(r, wh, rt) > 0.0
  }

  /** The terms the statistics add up. */
  function Stock(wh: string, rt: Runtime): Row -> real {
    r => InvOf(r, wh, rt)
  }

  function Sales(wh: string, rt: Runtime): Row -> real {
    r => PromOf(r, wh, rt)
  }

  /** The stock of a row when it is at risk, 0 otherwise (the `riskInv` reduce). */
  function StockAtRisk(wh: string, rt: Runtime): Row -> real {
    r => if IsRisk(CoverageOf(r, wh, rt)) then InvOf(r, wh, rt) else 0.0
  }

  /** The stock of a row when it is overstocked, 0 otherwise (the `overInv` reduce). */
  function StockOver(wh: string, rt: Runtime): Row -> real {
    r => if IsOver(CoverageOf(r, wh, rt)) then InvOf(r, wh, rt) else 0.0
  }

  /** `rows.map(r => safeNum(r[m.cobDias])).filter(x => Number.isFinite(x) && x >= 0)`. */
  function CoverageDays(rows: seq<Row>, wh: string, rt: Runtime): seq<real> {
    Filter(Coverages(rows, wh, rt), (x: real) => x >= 0.0)
  }

  /** `rows.map(r => safeNum(r[m.cobDias]))`. */
  function Coverages(rows: seq<Row>, wh: string, rt: Runtime): (all: seq<real>)
    ensures |all| == |rows|
  {
    seq(|rows|, i requires 0 <= i < |rows| => CoverageOf(rows[i], wh, rt))
  }

  /** The coverage days kept are exactly the non-negative coverages of the rows. */
  lemma CoverageDaysMembership(rows: seq<Row>, wh: string, rt: Runtime)
    ensures forall x :: x in CoverageDays(rows, wh, rt) <==>
      x >= 0.0 && exists i :: 0 <= i < |rows| && CoverageOf(rows[i], wh, rt) == x
  {
    var all := Coverages(rows, wh, rt);
    forall x | x in all ensures exists i :: 0 <= i < |rows| && CoverageOf(rows[i], wh, rt) == x {
      var i :| 0 <= i < |all| && all[i] == x;
    }
    forall i | 0 <= i < |rows| ensures CoverageOf(rows[i], wh, rt) in all {
      assert all[i] == CoverageOf(rows[i], wh, rt);
    }
  }

  /** The median coverage in days of the rows: `median(covArr)`. */
  function CoverageMedian(rows: seq<Row>, wh: string, rt: Runtime): Option<real> {
    Median.Median(Finites(CoverageDays(rows, wh, rt)))
  }

  /** The metrics `computeSummaryByWarehouse` stores under `map[wh]`. */
  datatype WarehouseSummary = WarehouseSummary(
    wh: string,
    skuCount: nat,
    a: nat, b: nat, c: nat, s: nat,
    invTotal: real,
    promTotal: real,
    covMed: Option<real>,
    riskCount: nat,
    overCount: nat,
    sinMovInv: nat,
    riskInv: real,
    overInv: real)

  /** The body of the loop over the warehouses: the metrics of warehouse `wh` over all rows. */
  function Summarize(rows: seq<Row>, wh: string, rt: Runtime): WarehouseSummary {
    WarehouseSummary(
      wh,
      |rows|,
      Count(rows, ClassIs(wh, "A")), Count(rows, ClassIs(wh, "B")),
      Count(rows, ClassIs(wh, "C")), Count(rows, ClassIs(wh, "Sin Mov")),
      SumOf(rows, Stock(wh, rt)),
      SumOf(rows, Sales(wh, rt)),
      CoverageMedian(rows, wh, rt),
      Count(rows, AtRisk(wh, rt)),
      Count(rows, Overstocked(wh, rt)),
      Count(rows, IdleWithStock(wh, rt)),
      SumOf(rows, StockAtRisk(wh, rt)),
      SumOf(rows, StockOver(wh, rt)))
  }

  /** `computeSummaryByWarehouse()`: one summary per warehouse, keyed by its name. */
  method ComputeSummaryByWarehouse(rows: seq<Row>, ws: seq<string>, rt: Runtime) returns (byWh: map<string, WarehouseSummary>)
    ensures forall w :: w in byWh <==> w in ws
    ensures forall w :: w in byWh ==> byWh[w] == Summarize(rows, w, rt)
  {
    byWh := map[];
    var i := 0;
    while i < |ws|
      invariant 0 <= i <= |ws|
      invariant forall w :: w in byWh <==> w in ws[..i]
      invariant forall w :: w in byWh ==> byWh[w] == Summarize(rows, w, rt)
    {
      byWh := byWh[ws[i] := Summarize(rows, ws[i], rt)];
      assert ws[..i + 1] == ws[..i] + [ws[i]];
      i := i + 1;
    }
    assert ws[..i] == ws;
  }

  /**
   * The counts of a warehouse fit in its SKUs: the four classes are disjoint,
   * no coverage is both a risk and an overstock, and idle stock is counted
   * among the "Sin Mov" SKUs.
   */
  lemma SummaryBounds(rows: seq<Row>, wh: string, rt: Runtime)
    ensures var s := Summarize(rows, wh, rt);
      && s.skuCount == |rows|
      && s.a + s.b + s.c + s.s <= s.skuCount
      && s.riskCount + s.overCount <= s.skuCount
      && s.sinMovInv <= s.s
  {
    CountFourDisjoint(rows, ClassIs(wh, "A"), ClassIs(wh, "B"), ClassIs(wh, "C"), ClassIs(wh, "Sin Mov"));
    CountDisjoint(rows, AtRisk(wh, rt), Overstocked(wh, rt));
    CountImplies(rows, IdleWithStock(wh, rt), ClassIs(wh, "Sin Mov"));
  }

  /** With no negative stock, the stock at risk and the stock in overstock together are at most the total stock. */
  lemma SummaryStockBands(rows: seq<Row>, wh: string, rt: Runtime)
    requires forall i :: 0 <= i < |rows| ==> InvOf(rows[i], wh, rt) >= 0.0
    ensures var s := Summarize(rows, wh, rt);
      s.riskInv + s.overInv <= s.invTotal
  {
    forall r | r in rows ensures StockAtRisk(wh, rt)(r) + StockOver(wh, rt)(r) <= Stock(wh, rt)(r) {
      var i :| 0 <= i < |rows| && rows[i] == r;
    }
    SumBound(rows, StockAtRisk(wh, rt), StockOver(wh, rt), Stock(wh, rt));
  }

  /** The median coverage is missing exactly when no row has a non-negative coverage, and is never negative. */
  lemma CoverageMedianRange(rows: seq<Row>, wh: string, rt: Runtime)
    ensures CoverageMedian(rows, wh, rt).None? <==> forall i :: 0 <= i < |rows| ==> CoverageOf(rows[i], wh, rt) < 0.0
    ensures CoverageMedian(rows, wh, rt).Some? ==> CoverageMedian(rows, wh, rt).value >= 0.0
  {
    var ds := CoverageDays(rows, wh, rt);
    var nums := Finites(ds);
    CoverageDaysMembership(rows, wh, rt);
    forall i | 0 <= i < |rows| && CoverageOf(rows[i], wh, rt) >= 0.0 ensures 0 < |nums| {
      assert CoverageOf(rows[i], wh, rt) in ds;
    }
    if CoverageMedian(rows, wh, rt).Some? {
      MedianBetween(nums);
      var x :| Finite(x) in nums && x <= Median.Median(nums).value;
      var k :| 0 <= k < |nums| && nums[k] == Finite(x);
      assert ds[k] in ds;
    }
  }

  // ----- computeGlobalSummary -----

  /** The running totals of the loop over the warehouses. */
  datatype Totals = Totals(invAll: real, promAll: real, riskPairs: nat, overPairs: nat, sinMovInvPairs: nat)

  /** Adding one warehouse's contribution to the running totals. */
  function Add(t: Totals, u: Totals): Totals {
    Totals(t.invAll + u.invAll, t.promAll + u.promAll, t.riskPairs + u.riskPairs,
      t.overPairs + u.overPairs, t.sinMovInvPairs + u.sinMovInvPairs)
  }

  /** What one warehouse adds: its stock, its sales and its counts over all rows. */
  function Contribution(rows: seq<Row>, wh: string, rt: Runtime): Totals {
    Totals(
      SumOf(rows, Stock(wh, rt)),
      SumOf(rows, Sales(wh, rt)),
      Count(rows, AtRisk(wh, rt)),
      Count(rows, Overstocked(wh, rt)),
      Count(rows, IdleWithStock(wh, rt)))
  }

  /** The totals after the warehouses `ws`, each adding its contribution in turn. */
  function TotalsOver(rows: seq<Row>, ws: seq<string>, rt: Runtime): Totals {
    if ws == [] then Totals(0.0, 0.0, 0, 0, 0)
    else Add(TotalsOver(rows, ws[..|ws| - 1], rt), Contribution(rows, ws[|ws| - 1], rt))
  }

  /** `pairsTotal ? (n / pairsTotal) : 0`. */
  function Share(n: nat, total: int): real {
    if total == 0 then 0.0 else n as real / total as real
  }

  /** What `computeGlobalSummary` returns. */
  datatype GlobalSummary = GlobalSummary(
    months: Option<real>,
    skus: nat,
    invAll: real,
    promAll: real,
    cobDiasGlobal: Option<real>,
    riskPct: real,
    overPct: real,
    sinMovInvPairs: nat)

  /**
   * The global summary: totals over every warehouse, the pooled coverage
   * `invAll / (promAll / 30)` (none without sales) and the shares of the SKU x
   * warehouse pairs at risk and in overstock.
   */
  function GlobalOf(rows: seq<Row>, ws: seq<string>, months: Option<real>, rt: Runtime): (g: GlobalSummary)
    ensures g.cobDiasGlobal.None? <==> g.promAll <= 0.0
    ensures |rows| == 0 || |ws| == 0 ==> g.riskPct == 0.0 && g.overPct == 0.0
  {
    var t := TotalsOver(rows, ws, rt);
    var pairs := |rows| * |ws|;
    GlobalSummary(
      months,
      |rows|,
      t.invAll,
      t.promAll,
      PooledDays(t.invAll, t.promAll),
      Share(t.riskPairs, pairs),
      Share(t.overPairs, pairs),
      t.sinMovInvPairs)
  }

  /** `promAll > 0 ? invAll / (promAll / 30) : null`: the pooled stock in days of pooled sales. */
  function PooledDays(inv: real, prom: real): (d: Option<real>)
    ensures d.None? <==> prom <= 0.0
  {
    if prom > 0.0 then Some(inv / (prom / 30.0)) else None
  }

  /** The pooled coverage covers the pooled stock at the pooled daily sales rate: days × monthly sales = 30 × stock. */
  lemma PooledDaysScale(inv: real, prom: real)
    requires PooledDays(inv, prom).Some?
    ensures PooledDays(inv, prom).value * prom == 30.0 * inv
  {
    var daily := prom / 30.0;
    var days := inv / daily;
    assert prom == 30.0 * daily;
    assert days * daily == inv;
    calc {
      days * prom;
      days * (30.0 * daily);
      30.0 * (days * daily);
      30.0 * inv;
    }
  }

  /** Adding one more warehouse to the running totals. */
  lemma TotalsOverSnoc(rows: seq<Row>, ws: seq<string>, i: nat, rt: Runtime)
    requires i < |ws|
    ensures TotalsOver(rows, ws[..i + 1], rt) == Add(TotalsOver(rows, ws[..i], rt), Contribution(rows, ws[i], rt))
  {
    assert ws[..i + 1][..i] == ws[..i];
  }

  /**
   * `computeGlobalSummary(summaryMap)`. The source ignores its argument and
   * recomputes every total from the rows, so the model takes the rows, the
   * warehouses and the months figure instead.
   */
  method ComputeGlobalSummary(rows: seq<Row>, ws: seq<string>, months: Option<real>, rt: Runtime) returns (g: GlobalSummary)
    ensures g == GlobalOf(rows, ws, months, rt)
  {
    var skuCount := |rows|;
    var invAll := 0.0;
    var promAll := 0.0;
    var riskPairs: nat := 0;
    var overPairs: nat := 0;
    var sinMovInvPairs: nat := 0;
    var i := 0;
    while i < |ws|
      invariant 0 <= i <= |ws|
      invariant TotalsOver(rows, ws[..i], rt) == Totals(invAll, promAll, riskPairs, overPairs, sinMovInvPairs)
    {
      var wh := ws[i];
      TotalsOverSnoc(rows, ws, i, rt);
      invAll := invAll + SumOf(rows, Stock(wh, rt));
      promAll := promAll + SumOf(rows, Sales(wh, rt));
      riskPairs := riskPairs + Count(rows, AtRisk(wh, rt));
      overPairs := overPairs + Count(rows, Overstocked(wh, rt));
      sinMovInvPairs := sinMovInvPairs + Count(rows, IdleWithStock(wh, rt));
      i := i + 1;
    }
    assert ws[..i] == ws;
    var pairsTotal := |rows| * |ws|;
    var cobDiasGlobal := if promAll > 0.0 then Some(invAll / (promAll / 30.0)) else None;
    g := GlobalSummary(months, skuCount, invAll, promAll, cobDiasGlobal,
      if pairsTotal != 0 then riskPairs as real / pairsTotal as real else 0.0,
      if pairsTotal != 0 then overPairs as real / pairsTotal as real else 0.0,
      sinMovInvPairs);
  }

  /** Over all warehouses, the pairs at risk and the pairs in overstock together are at most all the pairs. */
  lemma {:induction false} TotalsPairsBound(rows: seq<Row>, ws: seq<string>, rt: Runtime)
    ensures var t := TotalsOver(rows, ws, rt);
      t.riskPairs + t.overPairs <= |rows| * |ws| && t.sinMovInvPairs <= |rows| * |ws|
  {
    if ws != [] {
      var wh := ws[|ws| - 1];
      TotalsPairsBound(rows, ws[..|ws| - 1], rt);
      SummaryBounds(rows, wh, rt);
      CountImplies(rows, IdleWithStock(wh, rt), ClassIs(wh, "Sin Mov"));
      assert |rows| * |ws| == |rows| * (|ws| - 1) + |rows|;
      assert Count(rows, AtRisk(wh, rt)) + Count(rows, Overstocked(wh, rt)) <= |rows|;
    }
  }

  /** Two shares of the same total whose counts fit in it are fractions that add up to at most 1. */
  lemma ShareBounds(n: nat, m: nat, total: nat)
    requires n + m <= total
    ensures 0.0 <= Share(n, total) && 0.0 <= Share(m, total)
    ensures Share(n, total) + Share(m, total) <= 1.0
  {
    if total != 0 {
      assert Share(n, total) + Share(m, total) == (n + m) as real / total as real;
    }
  }

  /** The global risk and overstock percentages are fractions of the pairs that add up to at most 1. */
  lemma GlobalShares(rows: seq<Row>, ws: seq<string>, months: Option<real>, rt: Runtime)
    ensures var g := GlobalOf(rows, ws, months, rt);
      0.0 <= g.riskPct && 0.0 <= g.overPct && g.riskPct + g.overPct <= 1.0
  {
    var t := TotalsOver(rows, ws, rt);
    TotalsPairsBound(rows, ws, rt);
    ShareBounds(t.riskPairs, t.overPairs, |rows| * |ws|);
  }

  /** What a warehouse summary contributes to the global totals. */
  function SummaryContribution(s: WarehouseSummary): Totals {
    Totals(s.invTotal, s.promTotal, s.riskCount, s.overCount, s.sinMovInv)
  }

  /** The per-warehouse summaries of `ws`, added up in order. */
  function SummaryTotals(ws: seq<string>, byWh: map<string, WarehouseSummary>): Totals
    requires forall w :: w in ws ==> w in byWh
  {
    if ws == [] then Totals(0.0, 0.0, 0, 0, 0)
    else Add(SummaryTotals(ws[..|ws| - 1], byWh), SummaryContribution(byWh[ws[|ws| - 1]]))
  }

  /** A warehouse summary holds exactly what the warehouse adds to the global totals. */
  lemma SummaryContributes(rows: seq<Row>, wh: string, rt: Runtime)
    ensures SummaryContribution(Summarize(rows, wh, rt)) == Contribution(rows, wh, rt)
  {
  }

  /**
   * The global totals, which the source recomputes from the rows, are the
   * per-warehouse summaries added up.
   */
  lemma {:induction false} TotalsOfSummaries(rows: seq<Row>, ws: seq<string>, rt: Runtime, byWh: map<string, WarehouseSummary>)
    requires forall w :: w in ws ==> w in byWh && byWh[w] == Summarize(rows, w, rt)
    ensures TotalsOver(rows, ws, rt) == SummaryTotals(ws, byWh)
  {
    if ws != [] {
      var init := ws[..|ws| - 1];
      var w := ws[|ws| - 1];
      assert w in ws;
      assert forall v :: v in init ==> v in ws;
      TotalsOfSummaries(rows, init, rt, byWh);
      SummaryContributes(rows, w, rt);
    }
  }

  // ----- updateDetailKPIs -----

  /** The indicators of the detail view for warehouse `wh`. */
  datatype DetailKpis = DetailKpis(
    skus: nat,
    invTot: real,
    promTot: real,
    covMed: Option<real>,
    countA: nat, countB: nat, countC: nat, countS: nat,
    riskCount: nat,
    overCount: nat,
    smInv: nat,
    riskShare: real,
    overShare: real)

  /**
   * `updateDetailKPIs(viewRows)`: the same counts as the warehouse summary,
   * over the rows of the view, with the risk and overstock shares `pct`
   * shows (0 for an empty view).
   */
  function DetailKpisOf(view: seq<Row>, wh: string, rt: Runtime): DetailKpis {
    var risk := Count(view, AtRisk(wh, rt));
    var over := Count(view, Overstocked(wh, rt));
    DetailKpis(
      |view|,
      SumOf(view, Stock(wh, rt)),
      SumOf(view, Sales(wh, rt)),
      CoverageMedian(view, wh, rt),
      Count(view, ClassIs(wh, "A")), Count(view, ClassIs(wh, "B")),
      Count(view, ClassIs(wh, "C")), Count(view, ClassIs(wh, "Sin Mov")),
      risk,
      over,
      Count(view, IdleWithStock(wh, rt)),
      Share(risk, |view|),
      Share(over, |view|))
  }

  /**
   * A view that keeps some of the rows, in order, counts no more of anything
   * than the warehouse summary over all rows, and its shares are fractions
   * adding up to at most 1.
   */
  lemma DetailKpisOfView(view: seq<Row>, rows: seq<Row>, wh: string, rt: Runtime)
    requires IsSubsequence(view, rows)
    ensures var k := DetailKpisOf(view, wh, rt);
      var s := Summarize(rows, wh, rt);
      && k.skus <= s.skuCount
      && k.countA <= s.a && k.countB <= s.b && k.countC <= s.c && k.countS <= s.s
      && k.riskCount <= s.riskCount && k.overCount <= s.overCount && k.smInv <= s.sinMovInv
      && 0.0 <= k.riskShare && 0.0 <= k.overShare && k.riskShare + k.overShare <= 1.0
  {
    SubsequenceLength(view, rows);
    CountOfSubsequence(view, rows, ClassIs(wh, "A"));
    CountOfSubsequence(view, rows, ClassIs(wh, "B"));
    CountOfSubsequence(view, rows, ClassIs(wh, "C"));
    CountOfSubsequence(view, rows, ClassIs(wh, "Sin Mov"));
    CountOfSubsequence(view, rows, AtRisk(wh, rt));
    CountOfSubsequence(view, rows, Overstocked(wh, rt));
    CountOfSubsequence(view, rows, IdleWithStock(wh, rt));
    SummaryBounds(view, wh, rt);
    ShareBounds(Count(view, AtRisk(wh, rt)), Count(view, Overstocked(wh, rt)), |view|);
  }
}
