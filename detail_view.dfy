/**
 * The detail view of one warehouse: the seven columns it shows
 * (`getViewColumns`, app.js:604-615), the row filter driven by the view's
 * controls (`applyFilters`, app.js:617-658) and the column sort
 * (`sortRows`, app.js:660-676).
 *
 * The controls and the module-level sort state are parameters: a
 * `FilterSettings` holds the raw widget values, `sortKey` and `sortDir` are
 * passed to `SortRows`.
 */
module DetailView {
  import opened Wrappers
  import opened JsText
  import opened JsValues
  import opened Rows
  import opened Schema
  import opened Seqs
  import opened Sorting
  import opened Summary

  // ----- getViewColumns -----

  /** How a column is shown and compared: as text, or as a number with a number of decimals. */
  datatype ColumnKind = Text | Number(decimals: nat)

  /** One column of the detail table: the row key it reads, its header label and its kind. */
  datatype ViewColumn = ViewColumn(key: string, header: string, kind: ColumnKind)

  /** `getViewColumns(wh)`. */
  function ViewColumns(wh: string): (cols: seq<ViewColumn>)
    ensures |cols| == 7
  {
    var m := ColMap(wh);
    [ ViewColumn("Codigo", "Codigo", Text),
      ViewColumn("desc_prod", "desc_prod", Text),
      ViewColumn(m.inv, "Inv-" + wh, Number(0)),
      ViewColumn(m.cls, "Clasificacion-" + wh, Text),
      ViewColumn(m.prom, "Promedio Vta Mes-" + wh, Number(2)),
      ViewColumn(m.cobMes, "Cobertura (Mes)-" + wh, Number(2)),
      ViewColumn(m.cobDias, "Cobertura Dias (30) -" + wh, Number(2)) ]
  }

  /** The keys of a list of columns. */
  function Keys(cols: seq<ViewColumn>): (ks: seq<string>)
    ensures |ks| == |cols|
    ensures forall i :: 0 <= i < |cols| ==> ks[i] == cols[i].key
  {
    seq(|cols|, i requires 0 <= i < |cols| => cols[i].key)
  }

  /** The header labels of a list of columns. */
  function Labels(cols: seq<ViewColumn>): (ls: seq<string>)
    ensures |ls| == |cols|
    ensures forall i :: 0 <= i < |cols| ==> ls[i] == cols[i].header
  {
    seq(|cols|, i requires 0 <= i < |cols| => cols[i].header)
  }

  /** The view shows the two fixed columns, then the five columns of the warehouse in `colMap` order. */
  lemma ViewColumnKeys(wh: string)
    ensures Keys(ViewColumns(wh)) == ["Codigo", "desc_prod"] + ColumnsOf(wh)
  {
    ColumnsOfColMap(wh);
    assert Keys(ViewColumns(wh)) == ["Codigo", "desc_prod"] + ColMap(wh).Values();
  }

  /** Every header label is the name of the column it shows. */
  lemma ViewColumnLabels(wh: string)
    ensures Labels(ViewColumns(wh)) == Keys(ViewColumns(wh))
  {
  }

  /** Read back as column names, the fixed keys name no warehouse field and the others name their field of `wh`. */
  lemma ViewKeysParse(wh: string)
    ensures var ks := Keys(ViewColumns(wh));
      && ParseColumn(ks[0]) == None && ParseColumn(ks[1]) == None
      && forall i :: 2 <= i < 7 ==> ParseColumn(ks[i]) == Some((Fields[i - 2], wh))
  {
    ViewColumnKeys(wh);
    FixedColumnsAreNotWarehouseColumns();
    forall f: Field ensures ParseColumn(ColumnName(f, wh)) == Some((f, wh)) {
      ParseColumnName(f, wh);
    }
  }

  /** No column appears twice in the view. */
  lemma ViewColumnKeysDistinct(wh: string)
    ensures forall i, j :: 0 <= i < j < 7 ==> ViewColumns(wh)[i].key != ViewColumns(wh)[j].key
  {
    var ks := Keys(ViewColumns(wh));
    ViewKeysParse(wh);
    forall i, j | 0 <= i < j < 7 ensures ks[i] != ks[j] {
      if 2 <= i {
        assert Fields[i - 2] != Fields[j - 2];
        assert ParseColumn(ks[i]) != ParseColumn(ks[j]);
      } else if i == 0 && j == 1 {
        assert ks[0][0] != ks[1][0];
      } else {
        assert ParseColumn(ks[i]) != ParseColumn(ks[j]);
      }
    }
  }

  /** Exactly the two fixed columns and the classification are compared as text; the other four as numbers. */
  lemma ViewColumnKinds(wh: string)
    ensures forall i :: 0 <= i < 7 ==>
      (ViewColumns(wh)[i].kind.Text? <==> i < 2 || ViewColumns(wh)[i].key == ColumnName(Cls, wh))
  {
    var ks := Keys(ViewColumns(wh));
    ViewKeysParse(wh);
    forall i | 2 <= i < 7 && i != 3 ensures ks[i] != ColumnName(Cls, wh) {
      assert ParseColumn(ks[i]) != ParseColumn(ks[3]);
    }
  }

  // ----- applyFilters -----

  /**
   * The values of the view's controls: warehouse select, class select (`"ALL"`
   * for every class), search box, the "only with stock" toggle, the two
   * coverage-range inputs as typed, and the "Sin Mov with stock" and "A/B
   * without stock" toggles.
   */
  datatype FilterSettings = FilterSettings(
    warehouse: string,
    classChoice: string,
    search: string,
    onlyInStock: bool,
    coverageMin: string,
    coverageMax: string,
    onlyIdleWithStock: bool,
    onlyABWithoutStock: bool)

  /** The class-select value that selects every class. */
  const AllClasses: string := "ALL"

  /** `covMin.value !== "" ? Number(covMin.value) : null`. */
  function Bound(text: string, rt: Runtime): (b: Option<JsNumber>)
    ensures b.None? <==> text == ""
  {
    if text == "" then None else Some(rt.parseNumber(text))
  }

  /** `(searchInput.value || "").trim().toLowerCase()`. */
  function Query(search: string, rt: Runtime): string {
    rt.toLowerCase(Trim(search))
  }

  /** `d < n` for a finite `d`: a comparison with NaN is false. */
  predicate Below(d: real, n: JsNumber) {
    match n
    case Finite(v) => d < v
    case NaN => false
    case PositiveInfinity => true
    case NegativeInfinity => false
  }

  /** `d > n` for a finite `d`: a comparison with NaN is false. */
  predicate Above(d: real, n: JsNumber) {
    match n
    case Finite(v) => d > v
    case NaN => false
    case PositiveInfinity => false
    case NegativeInfinity => true
  }

  /** `s.includes(q)`. */
  predicate Includes(s: string, q: string) {
    exists i :: 0 <= i <= |s| && IsPrefix(q, s[i..])
  }

  /** The search matches the lower-cased `String(r.Codigo)` or `String(r.desc_prod)`. */
  predicate MatchesSearch(r: Row, q: string, rt: Runtime) {
    || Includes(rt.toLowerCase(ToStr(r.Get("Codigo"), rt)), q)
    || Includes(rt.toLowerCase(ToStr(r.Get("desc_prod"), rt)), q)
  }

  /** The callback of `rows.filter(r => ...)` in `applyFilters`: every check the row must pass. */
  predicate Keep(s: FilterSettings, r: Row, rt: Runtime) {
    var wh := s.warehouse;
    var q := Query(s.search, rt);
    var d := CoverageOf(r, wh, rt);
    var inv := InvOf(r, wh, rt);
    var lo := Bound(s.coverageMin, rt);
    var hi := Bound(s.coverageMax, rt);
    && wh != ""
    && (s.classChoice == AllClasses || HasClass(r, wh, s.classChoice))
    && (q == "" || MatchesSearch(r, q, rt))
    && (!s.onlyInStock || inv > 0.0)
    && (lo.None? || !Below(d, lo.value))
    && (hi.None? || !Above(d, hi.value))
    && (!s.onlyIdleWithStock || (HasClass(r, wh, "Sin Mov") && inv > 0.0))
    && (!s.onlyABWithoutStock || ((HasClass(r, wh, "A") || HasClass(r, wh, "B")) && inv == 0.0))
  }

  function Keeps(s: FilterSettings, rt: Runtime): Row -> bool {
    r => Keep(s, r, rt)
  }

  /**
   * `applyFilters(rows)`: the rows that pass every active check, in their
   * original order, each as often as it occurs in `rows`.
   */
  function ApplyFilters(rows: seq<Row>, s: FilterSettings, rt: Runtime): (view: seq<Row>)
    ensures IsSubsequence(view, rows)
    ensures forall r :: r in view <==> r in rows && Keep(s, r, rt)
    ensures |view| == Count(rows, Keeps(s, rt))
    ensures forall r :: multiset(view)[r] == if Keep(s, r, rt) then multiset(rows)[r] else 0
  {
    FilterIsSubsequence(rows, Keeps(s, rt));
    forall r ensures multiset(Filter(rows, Keeps(s, rt)))[r] == if Keep(s, r, rt) then multiset(rows)[r] else 0 {
      FilterMultiplicity(rows, Keeps(s, rt), r);
    }
    Filter(rows, Keeps(s, rt))
  }

  /** Without a selected warehouse the view is empty. */
  lemma NoWarehouseNoRows(rows: seq<Row>, s: FilterSettings, rt: Runtime)
    requires s.warehouse == ""
    ensures ApplyFilters(rows, s, rt) == []
  {
    FilterNone(rows, Keeps(s, rt));
  }

  /** With a warehouse selected and every other control at rest, the view is every row. */
  lemma NoFiltersKeepsAll(rows: seq<Row>, s: FilterSettings, rt: Runtime)
    requires s.warehouse != "" && s.classChoice == AllClasses && Query(s.search, rt) == ""
    requires !s.onlyInStock && s.coverageMin == "" && s.coverageMax == ""
    requires !s.onlyIdleWithStock && !s.onlyABWithoutStock
    ensures ApplyFilters(rows, s, rt) == rows
  {
    FilterAll(rows, Keeps(s, rt));
  }

  /**
   * Every kept row passes each active check: its class is the chosen one, it
   * matches the search, it has stock when asked, its coverage lies within the
   * finite bounds typed in, and it meets the two special toggles.
   */
  lemma KeptRowsPassChecks(rows: seq<Row>, s: FilterSettings, rt: Runtime, r: Row)
    requires r in ApplyFilters(rows, s, rt)
    ensures var wh := s.warehouse;
      && wh != ""
      && (s.classChoice != AllClasses ==> r.Get(ColumnName(Cls, wh)) == Str(s.classChoice))
      && (Query(s.search, rt) != "" ==> MatchesSearch(r, Query(s.search, rt), rt))
      && (s.onlyInStock ==> InvOf(r, wh, rt) > 0.0)
      && (forall lo :: Bound(s.coverageMin, rt) == Some(Finite(lo)) ==> lo <= CoverageOf(r, wh, rt))
      && (forall hi :: Bound(s.coverageMax, rt) == Some(Finite(hi)) ==> CoverageOf(r, wh, rt) <= hi)
      && (Bound(s.coverageMin, rt) != Some(PositiveInfinity))
      && (Bound(s.coverageMax, rt) != Some(NegativeInfinity))
      && (s.onlyIdleWithStock ==> r.Get(ColumnName(Cls, wh)) == Str("Sin Mov") && InvOf(r, wh, rt) > 0.0)
      && (s.onlyABWithoutStock ==> r.Get(ColumnName(Cls, wh)) in {Str("A"), Str("B")} && InvOf(r, wh, rt) == 0.0)
  {
    assert Keep(s, r, rt);
  }

  /**
   * A row that passes every check is kept: with the previous lemma, the view
   * is exactly the rows of the master that pass.
   */
  lemma PassingRowsAreKept(rows: seq<Row>, s: FilterSettings, rt: Runtime, r: Row)
    requires r in rows
    requires s.warehouse != ""
    requires s.classChoice == AllClasses || HasClass(r, s.warehouse, s.classChoice)
    requires Query(s.search, rt) == "" || MatchesSearch(r, Query(s.search, rt), rt)
    requires s.onlyInStock ==> InvOf(r, s.warehouse, rt) > 0.0
    requires s.coverageMin == "" || !Below(CoverageOf(r, s.warehouse, rt), rt.parseNumber(s.coverageMin))
    requires s.coverageMax == "" || !Above(CoverageOf(r, s.warehouse, rt), rt.parseNumber(s.coverageMax))
    requires s.onlyIdleWithStock ==> HasClass(r, s.warehouse, "Sin Mov") && InvOf(r, s.warehouse, rt) > 0.0
    requires s.onlyABWithoutStock ==>
      (HasClass(r, s.warehouse, "A") || HasClass(r, s.warehouse, "B")) && InvOf(r, s.warehouse, rt) == 0.0
    ensures r in ApplyFilters(rows, s, rt)
  {
  }

  /**
   * A coverage bound that `Number` cannot read (NaN) filters nothing: the view
   * is the one with the input left empty.
   */
  lemma UnreadableBoundIgnored(rows: seq<Row>, s: FilterSettings, rt: Runtime)
    requires s.coverageMin != "" && rt.parseNumber(s.coverageMin) == NaN
    ensures ApplyFilters(rows, s, rt) == ApplyFilters(rows, s.(coverageMin := ""), rt)
  {
    FilterSame(rows, Keeps(s, rt), Keeps(s.(coverageMin := ""), rt));
  }

  /** The "Sin Mov with stock" and "A/B without stock" toggles exclude each other: both on shows nothing. */
  lemma ExclusiveToggles(rows: seq<Row>, s: FilterSettings, rt: Runtime)
    requires s.onlyIdleWithStock && s.onlyABWithoutStock
    ensures ApplyFilters(rows, s, rt) == []
  {
    FilterNone(rows, Keeps(s, rt));
  }

  /**
   * `t` asks for at least what `s` asks for: the same warehouse, search and
   * coverage range, the same class unless `s` takes all classes, and every
   * toggle `s` has on.
   */
  predicate Tightens(t: FilterSettings, s: FilterSettings) {
    && t.warehouse == s.warehouse
    && t.search == s.search
    && t.coverageMin == s.coverageMin
    && t.coverageMax == s.coverageMax
    && (s.classChoice == AllClasses || t.classChoice == s.classChoice)
    && (s.onlyInStock ==> t.onlyInStock)
    && (s.onlyIdleWithStock ==> t.onlyIdleWithStock)
    && (s.onlyABWithoutStock ==> t.onlyABWithoutStock)
  }

  /** Choosing a class or switching a toggle on only removes rows from the view. */
  lemma TighterFiltersNarrow(rows: seq<Row>, t: FilterSettings, s: FilterSettings, rt: Runtime)
    requires Tightens(t, s)
    ensures IsSubsequence(ApplyFilters(rows, t, rt), ApplyFilters(rows, s, rt))
  {
    FilterMonotone(rows, Keeps(t, rt), Keeps(s, rt));
  }

  /** The indicators of a filtered view never exceed the warehouse summary over the whole master. */
  lemma FilteredKpisBounded(rows: seq<Row>, s: FilterSettings, rt: Runtime)
    ensures var k := DetailKpisOf(ApplyFilters(rows, s, rt), s.warehouse, rt);
      var w := Summarize(rows, s.warehouse, rt);
      && k.skus <= w.skuCount
      && k.countA <= w.a && k.countB <= w.b && k.countC <= w.c && k.countS <= w.s
      && k.riskCount <= w.riskCount && k.overCount <= w.overCount && k.smInv <= w.sinMovInv
  {
    DetailKpisOfView(ApplyFilters(rows, s, rt), rows, s.warehouse, rt);
  }

  // ----- sortRows -----

  /** `columns.find(c => c.key === key)`. */
  function FindColumn(cols: seq<ViewColumn>, key: string): (c: Option<ViewColumn>)
    ensures c.None? <==> forall i :: 0 <= i < |cols| ==> cols[i].key != key
    ensures c.Some? ==> c.value.key == key
    ensures c.Some? ==> exists i :: 0 <= i < |cols| && cols[i] == c.value && (forall j :: 0 <= j < i ==> cols[j].key != key)
  {
    if cols == [] then None
    else if cols[0].key == key then Some(cols[0])
    else
      var c := FindColumn(cols[1..], key);
      if c.Some? then
        var i :| 0 <= i < |cols[1..]| && cols[1..][i] == c.value && (forall j :: 0 <= j < i ==> cols[1..][j].key != key);
        assert cols[i + 1] == c.value;
        c
      else c
  }

  /** The sign `dir` of the comparator: 1 for `"asc"`, -1 otherwise. */
  function Direction(sortDir: string): (dir: real)
    ensures dir == 1.0 || dir == -1.0
  {
    if sortDir == "asc" then 1.0 else -1.0
  }

  /**
   * `cmp(a, b) <= 0` for the comparator of `sortRows`: on a numeric column
   * `(safeNum(va) - safeNum(vb)) * dir`, on a text column the collation of
   * `String(va ?? "")` and `String(vb ?? "")` times `dir`.
   */
  function Precedes(col: ViewColumn, dir: real, rt: Runtime): (Row, Row) -> bool {
    (a: Row, b: Row) =>
      if col.kind.Number? then
        (SafeNum(a.Get(col.key), rt) - SafeNum(b.Get(col.key), rt)) * dir <= 0.0
      else
        rt.localeCompare(NullishToStr(a.Get(col.key), rt), NullishToStr(b.Get(col.key), rt)) as real * dir <= 0.0
  }

  /**
   * `sortRows(rows, columns)`: the rows unchanged when there is no sort key or
   * it names none of the columns; otherwise a stably sorted copy.
   */
  function SortRows(rows: seq<Row>, cols: seq<ViewColumn>, sortKey: Option<string>, sortDir: string, rt: Runtime): (out: seq<Row>)
    ensures multiset(out) == multiset(rows)
    ensures sortKey.None? || sortKey == Some("") ==> out == rows
    ensures sortKey.Some? && FindColumn(cols, sortKey.value).None? ==> out == rows
  {
    if sortKey.None? || sortKey.value == "" then rows
    else
      match FindColumn(cols, sortKey.value)
      case None => rows
      case Some(col) => SortBy(rows, Precedes(col, Direction(sortDir), rt))
  }

  /** The comparator of a numeric column is a consistent one, in either direction. */
  lemma NumericPrecedesPreorder(col: ViewColumn, dir: real, rt: Runtime)
    requires col.kind.Number? && (dir == 1.0 || dir == -1.0)
    ensures TotalPreorder(Precedes(col, dir, rt))
  {
  }

  /**
   * Sorting on a numeric column orders the rows by `safeNum` of that column:
   * ascending for `"asc"`, descending otherwise.
   */
  lemma SortRowsNumeric(rows: seq<Row>, cols: seq<ViewColumn>, key: string, sortDir: string, rt: Runtime)
    requires key != ""
    requires FindColumn(cols, key).Some? && FindColumn(cols, key).value.kind.Number?
    ensures var out := SortRows(rows, cols, Some(key), sortDir, rt);
      forall i, j :: 0 <= i < j < |out| ==>
        if sortDir == "asc" then SafeNum(out[i].Get(key), rt) <= SafeNum(out[j].Get(key), rt)
        else SafeNum(out[i].Get(key), rt) >= SafeNum(out[j].Get(key), rt)
  {
    var col := FindColumn(cols, key).value;
    var leq := Precedes(col, Direction(sortDir), rt);
    NumericPrecedesPreorder(col, Direction(sortDir), rt);
    SortBySorted(rows, leq);
    var out := SortRows(rows, cols, Some(key), sortDir, rt);
    assert out == SortBy(rows, leq);
    forall i, j | 0 <= i < j < |out|
      ensures if sortDir == "asc" then SafeNum(out[i].Get(key), rt) <= SafeNum(out[j].Get(key), rt)
              else SafeNum(out[i].Get(key), rt) >= SafeNum(out[j].Get(key), rt)
    {
      assert leq(out[i], out[j]);
    }
  }

  /**
   * The collation behaves as a consistent comparator: any two texts are
   * ordered one way or the other, the order is transitive, and swapping the
   * arguments flips the sign.
   */
  ghost predicate ConsistentCollation(rt: Runtime) {
    && (forall a, b :: rt.localeCompare(a, b) <= 0 || rt.localeCompare(b, a) <= 0)
    && (forall a, b, c :: rt.localeCompare(a, b) <= 0 && rt.localeCompare(b, c) <= 0 ==> rt.localeCompare(a, c) <= 0)
    && (forall a, b :: rt.localeCompare(a, b) <= 0 <==> rt.localeCompare(b, a) >= 0)
  }

  /** With a consistent collation, sorting on a text column orders the rows by the collation of the cell texts. */
  lemma SortRowsText(rows: seq<Row>, cols: seq<ViewColumn>, key: string, sortDir: string, rt: Runtime)
    requires ConsistentCollation(rt)
    requires key != ""
    requires FindColumn(cols, key).Some? && FindColumn(cols, key).value.kind.Text?
    ensures var out := SortRows(rows, cols, Some(key), sortDir, rt);
      forall i, j :: 0 <= i < j < |out| ==>
        var c := rt.localeCompare(NullishToStr(out[i].Get(key), rt), NullishToStr(out[j].Get(key), rt));
        if sortDir == "asc" then c <= 0 else c >= 0
  {
    var col := FindColumn(cols, key).value;
    var dir := Direction(sortDir);
    var leq := Precedes(col, dir, rt);
    assert TotalPreorder(leq) by {
      forall a, b ensures leq(a, b) || leq(b, a) {
        var x, y := NullishToStr(a.Get(key), rt), NullishToStr(b.Get(key), rt);
        assert rt.localeCompare(x, y) <= 0 <==> rt.localeCompare(y, x) >= 0;
      }
      forall a, b, c | leq(a, b) && leq(b, c) ensures leq(a, c) {
        var x, y, z := NullishToStr(a.Get(key), rt), NullishToStr(b.Get(key), rt), NullishToStr(c.Get(key), rt);
        if dir == -1.0 {
          assert rt.localeCompare(y, x) <= 0 && rt.localeCompare(z, y) <= 0;
          assert rt.localeCompare(z, x) <= 0;
        }
      }
    }
    SortBySorted(rows, leq);
    var out := SortRows(rows, cols, Some(key), sortDir, rt);
    assert out == SortBy(rows, leq);
    forall i, j | 0 <= i < j < |out|
      ensures var c := rt.localeCompare(NullishToStr(out[i].Get(key), rt), NullishToStr(out[j].Get(key), rt));
        if sortDir == "asc" then c <= 0 else c >= 0
    {
      assert leq(out[i], out[j]);
    }
  }
}
