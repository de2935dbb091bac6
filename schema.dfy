/**
 * The layout of the master table: the fixed columns, the five columns each
 * warehouse contributes (`colMap`), the header clean-up applied after reading
 * (`normalizeColumns`), and the detection and validation of the warehouses the
 * header describes (`detectWarehouses`, `validateMaster`).
 */
module Schema {
  import opened Wrappers
  import opened JsText
  import opened JsValues
  import opened Rows

  /** The five per-warehouse columns. */
  datatype Field = Inv | Cls | Prom | CobMes | CobDias

  /** The column-name prefix of each per-warehouse field. */
  function Prefix(f: Field): string {
    match f
    case Inv => "Inv-"
    case Cls => "Clasificacion-"
    case Prom => "Promedio Vta Mes-"
    case CobMes => "Cobertura (Mes)-"
    case CobDias => "Cobertura Dias (30) -"
  }

  /** The column holding field `f` of warehouse `wh`. */
  function ColumnName(f: Field, wh: string): string {
    Prefix(f) + wh
  }

  /** The object `colMap(wh)` returns: one column name per field. */
  datatype ColumnMap = ColumnMap(inv: string, cls: string, prom: string, cobMes: string, cobDias: string) {
    /** `Object.values(m)`: the names in the order the object literal lists them. */
    function Values(): seq<string> {
      [inv, cls, prom, cobMes, cobDias]
    }
  }

  /** The five fields in the order `colMap` lists them. */
  const Fields: seq<Field> := [Inv, Cls, Prom, CobMes, CobDias]

  /** `colMap(wh)`. */
  function ColMap(wh: string): (m: ColumnMap)
    ensures |m.Values()| == |Fields|
    ensures forall i :: 0 <= i < |Fields| ==> m.Values()[i] == ColumnName(Fields[i], wh)
  {
    ColumnMap(ColumnName(Inv, wh), ColumnName(Cls, wh), ColumnName(Prom, wh),
              ColumnName(CobMes, wh), ColumnName(CobDias, wh))
  }

  /** Reads a column name back as a field and a warehouse, when it has one of the five prefixes. */
  function ParseColumn(c: string): Option<(Field, string)> {
    if IsPrefix(Prefix(Inv), c) then Some((Inv, c[|Prefix(Inv)|..]))
    else if IsPrefix(Prefix(Cls), c) then Some((Cls, c[|Prefix(Cls)|..]))
    else if IsPrefix(Prefix(Prom), c) then Some((Prom, c[|Prefix(Prom)|..]))
    else if IsPrefix(Prefix(CobMes), c) then Some((CobMes, c[|Prefix(CobMes)|..]))
    else if IsPrefix(Prefix(CobDias), c) then Some((CobDias, c[|Prefix(CobDias)|..]))
    else None
  }

  /** No prefix starts another one, so a column name starts with at most one of them. */
  lemma PrefixesDisjoint(f: Field, g: Field, wh: string)
    requires f != g
    ensures !IsPrefix(Prefix(f), ColumnName(g, wh))
  {
    var c := ColumnName(g, wh);
    var i := if {f, g} == {CobMes, CobDias} then 10 else if Prefix(f)[0] == Prefix(g)[0] then 1 else 0;
    assert Prefix(f)[i] != Prefix(g)[i];
    assert c[i] == Prefix(g)[i];
    if |Prefix(f)| <= |c| {
      assert c[..|Prefix(f)|][i] != Prefix(f)[i];
    }
  }

  /** `ParseColumn` inverts `ColumnName`. */
  lemma ParseColumnName(f: Field, wh: string)
    ensures ParseColumn(ColumnName(f, wh)) == Some((f, wh))
  {
    var c := ColumnName(f, wh);
    assert c[..|Prefix(f)|] == Prefix(f) && c[|Prefix(f)|..] == wh;
    forall g | g != f ensures !IsPrefix(Prefix(g), c) {
      PrefixesDisjoint(g, f, wh);
    }
  }

  /** And `ColumnName` inverts `ParseColumn` wherever the latter succeeds. */
  lemma ColumnNameOfParse(c: string)
    requires ParseColumn(c).Some?
    ensures ColumnName(ParseColumn(c).value.0, ParseColumn(c).value.1) == c
  {
    var p := Prefix(ParseColumn(c).value.0);
    assert c == c[..|p|] + c[|p|..];
  }

  /** Distinct (field, warehouse) pairs name distinct columns. */
  lemma ColumnNameInjective(f: Field, wh: string, g: Field, wh': string)
    requires ColumnName(f, wh) == ColumnName(g, wh')
    ensures f == g && wh == wh'
  {
    ParseColumnName(f, wh);
    ParseColumnName(g, wh');
  }

  /** No prefix holds a comma or a double quote. */
  lemma PrefixPlainText(f: Field)
    ensures ',' !in Prefix(f) && '"' !in Prefix(f)
  {
    var p := Prefix(f);
    forall i | 0 <= i < |p| ensures p[i] != ',' && p[i] != '"' {
      assert 'A' <= p[i] <= 'z' || p[i] in {' ', '-', '(', ')', '3', '0'};
    }
  }

  /** The fixed columns are never per-warehouse columns. */
  lemma FixedColumnsAreNotWarehouseColumns()
    ensures ParseColumn("Codigo") == None
    ensures ParseColumn("desc_prod") == None
    ensures ParseColumn("MesesUsados") == None
  {
    assert "Codigo"[0] == 'C' && "Codigo"[1] == 'o' && "Codigo"[2] == 'd';
    assert "desc_prod"[0] == 'd';
    assert "MesesUsados"[0] == 'M';
  }

  // ----- normalizeColumns -----

  /** The assignments `out[k.trim()] = r[k]`, one per key of `r` in `ks`, in order. */
  function TrimmedPairs(r: Row, ks: seq<string>): (ps: seq<(string, Value)>)
    ensures |ps| == |ks|
    ensures forall i :: 0 <= i < |ks| ==> ps[i] == (Trim(ks[i]), r.Get(ks[i]))
  {
    if ks == [] then []
    else TrimmedPairs(r, ks[..|ks| - 1]) + [(Trim(ks[|ks| - 1]), r.Get(ks[|ks| - 1]))]
  }

  /** One row of `normalizeColumns`: the keys trimmed, a later key winning when two trim alike. */
  function NormalizeRow(r: Row): Row {
    FromPairs(TrimmedPairs(r, r.keys))
  }

  /** `normalizeColumns(rows)`. */
  function NormalizeColumns(rows: seq<Row>): (out: seq<Row>)
    ensures |out| == |rows|
  {
    seq(|rows|, i requires 0 <= i < |rows| => NormalizeRow(rows[i]))
  }

  /** The normalised row's keys are the trimmed keys of the input, and each of them is trimmed. */
  lemma NormalizeRowKeys(r: Row)
    ensures NormalizeRow(r).Valid()
    ensures forall k :: NormalizeRow(r).Has(k) <==> k in TrimAll(r.keys)
    ensures forall k :: NormalizeRow(r).Has(k) ==> IsTrimmed(k)
  {
    var ps := TrimmedPairs(r, r.keys);
    assert Firsts(ps) == TrimAll(r.keys);
  }

  /** The value under a trimmed key is the input's value under the last key that trims to it. */
  lemma NormalizeRowCell(r: Row, j: nat)
    requires j < |r.keys|
    requires forall i :: j < i < |r.keys| ==> Trim(r.keys[i]) != Trim(r.keys[j])
    ensures NormalizeRow(r).Get(Trim(r.keys[j])) == r.Get(r.keys[j])
  {
    FromPairsLastWins(TrimmedPairs(r, r.keys), j);
  }

  /** A well-formed row whose keys are already trimmed is left as it is. */
  lemma NormalizeRowOfTrimmed(r: Row)
    requires r.Valid()
    requires forall i :: 0 <= i < |r.keys| ==> IsTrimmed(r.keys[i])
    ensures NormalizeRow(r) == r
  {
    var ps := TrimmedPairs(r, r.keys);
    TrimmedPairsOfTrimmed(r);
    FromPairsDistinctKeys(ps);
    assert NormalizeRow(r).keys == r.keys;
    NormalizeCellsOfTrimmed(r);
  }

  /** Trimming trimmed keys changes none of them. */
  lemma TrimmedPairsOfTrimmed(r: Row)
    requires forall i :: 0 <= i < |r.keys| ==> IsTrimmed(r.keys[i])
    ensures Firsts(TrimmedPairs(r, r.keys)) == r.keys
  {
    var ps := TrimmedPairs(r, r.keys);
    forall i | 0 <= i < |r.keys| ensures ps[i].0 == r.keys[i] {
      TrimOfTrimmed(r.keys[i]);
    }
  }

  /** With distinct trimmed keys every value stays under its own key. */
  lemma NormalizeCellsOfTrimmed(r: Row)
    requires r.Valid()
    requires Firsts(TrimmedPairs(r, r.keys)) == r.keys
    ensures NormalizeRow(r).cells == r.cells
  {
    var n := NormalizeRow(r);
    assert n.cells.Keys == r.cells.Keys;
    NormalizeValuesOfTrimmed(r);
    SameCells(n, r);
  }

  /** Every key of such a row keeps its value. */
  lemma NormalizeValuesOfTrimmed(r: Row)
    requires r.Valid()
    requires Firsts(TrimmedPairs(r, r.keys)) == r.keys
    ensures forall k :: k in r.cells ==> NormalizeRow(r).Get(k) == r.Get(k)
  {
    forall k | k in r.cells ensures NormalizeRow(r).Get(k) == r.Get(k) {
      var j :| 0 <= j < |r.keys| && r.keys[j] == k;
      NormalizeCellOfTrimmed(r, j);
    }
  }

  /** The `j`-th key of such a row keeps its value. */
  lemma NormalizeCellOfTrimmed(r: Row, j: nat)
    requires r.Valid() && j < |r.keys|
    requires Firsts(TrimmedPairs(r, r.keys)) == r.keys
    ensures NormalizeRow(r).Get(r.keys[j]) == r.Get(r.keys[j])
  {
    var ps := TrimmedPairs(r, r.keys);
    assert ps[j].0 == r.keys[j];
    FromPairsLastWins(ps, j);
  }

  /** Normalising twice is normalising once. */
  lemma NormalizeRowIdempotent(r: Row)
    ensures NormalizeRow(NormalizeRow(r)) == NormalizeRow(r)
  {
    var n := NormalizeRow(r);
    NormalizeRowKeys(r);
    forall i | 0 <= i < |n.keys| ensures IsTrimmed(n.keys[i]) {
      assert n.Has(n.keys[i]);
    }
    NormalizeRowOfTrimmed(n);
  }

  // ----- detectWarehouses -----

  /** `c.startsWith("Inv-")`. */
  predicate IsInventoryColumn(c: string) {
    IsPrefix(Prefix(Inv), c)
  }

  /** `c.replace("Inv-", "")` for an inventory column: the rest of the name. */
  function InventorySuffix(c: string): string
    requires IsInventoryColumn(c)
  {
    c[|Prefix(Inv)|..]
  }

  /** `cols.filter(c => c.startsWith("Inv-")).map(c => c.replace("Inv-", ""))`, before trimming. */
  function InventorySuffixes(cols: seq<string>): (ss: seq<string>)
    ensures |ss| <= |cols|
  {
    if cols == [] then []
    else
      var c := cols[|cols| - 1];
      InventorySuffixes(cols[..|cols| - 1]) + (if IsInventoryColumn(c) then [InventorySuffix(c)] else [])
  }

  /** The warehouses the columns `cols` describe: each inventory suffix, trimmed, in column order. */
  function WarehousesOf(cols: seq<string>): seq<string> {
    TrimAll(InventorySuffixes(cols))
  }

  /** `detectWarehouses(rows)`: read from the keys of the first row only. */
  function DetectWarehouses(rows: seq<Row>): seq<string> {
    if rows == [] then [] else WarehousesOf(rows[0].keys)
  }

  /** Scanning two runs of columns one after the other scans each in turn. */
  lemma {:induction false} InventorySuffixesAppend(a: seq<string>, b: seq<string>)
    ensures InventorySuffixes(a + b) == InventorySuffixes(a) + InventorySuffixes(b)
  {
    if b == [] {
      assert a + b == a;
    } else {
      InventorySuffixesAppend(a, b[..|b| - 1]);
      assert (a + b)[..|a + b| - 1] == a + b[..|b| - 1];
      assert (a + b)[|a + b| - 1] == b[|b| - 1];
    }
  }

  /** A suffix is collected exactly when some inventory column carries it. */
  lemma {:induction false} InventorySuffixesMembership(cols: seq<string>, s: string)
    ensures s in InventorySuffixes(cols) <==>
      exists i :: 0 <= i < |cols| && IsInventoryColumn(cols[i]) && InventorySuffix(cols[i]) == s
  {
    if cols != [] {
      var init := cols[..|cols| - 1];
      InventorySuffixesMembership(init, s);
      if exists i :: 0 <= i < |cols| && IsInventoryColumn(cols[i]) && InventorySuffix(cols[i]) == s {
        var i :| 0 <= i < |cols| && IsInventoryColumn(cols[i]) && InventorySuffix(cols[i]) == s;
        if i < |cols| - 1 {
          assert init[i] == cols[i];
        }
      }
      if s in InventorySuffixes(init) {
        var i :| 0 <= i < |init| && IsInventoryColumn(init[i]) && InventorySuffix(init[i]) == s;
        assert cols[i] == init[i];
      }
    }
  }

  /** A warehouse is detected exactly when some inventory column's suffix trims to it. */
  lemma WarehousesOfMembership(cols: seq<string>, wh: string)
    ensures wh in WarehousesOf(cols) <==>
      exists i :: 0 <= i < |cols| && IsInventoryColumn(cols[i]) && Trim(InventorySuffix(cols[i])) == wh
  {
    var ss := InventorySuffixes(cols);
    if wh in WarehousesOf(cols) {
      var j :| 0 <= j < |ss| && WarehousesOf(cols)[j] == wh;
      InventorySuffixesMembership(cols, ss[j]);
    }
    if exists i :: 0 <= i < |cols| && IsInventoryColumn(cols[i]) && Trim(InventorySuffix(cols[i])) == wh {
      var i :| 0 <= i < |cols| && IsInventoryColumn(cols[i]) && Trim(InventorySuffix(cols[i])) == wh;
      InventorySuffixesMembership(cols, InventorySuffix(cols[i]));
      var j :| 0 <= j < |ss| && ss[j] == InventorySuffix(cols[i]);
      assert WarehousesOf(cols)[j] == wh;
    }
  }

  /** Every detected warehouse name is trimmed. */
  lemma WarehousesAreTrimmed(cols: seq<string>)
    ensures forall i :: 0 <= i < |WarehousesOf(cols)| ==> IsTrimmed(WarehousesOf(cols)[i])
  {
    var ss := InventorySuffixes(cols);
    forall i | 0 <= i < |ss| ensures IsTrimmed(WarehousesOf(cols)[i]) {
      assert WarehousesOf(cols)[i] == Trim(ss[i]);
    }
  }

  /** Every column of a warehouse, in `colMap` order. */
  function ColumnsOf(wh: string): (cs: seq<string>)
    ensures |cs| == |Fields|
  {
    seq(|Fields|, i requires 0 <= i < |Fields| => ColumnName(Fields[i], wh))
  }

  /** They are `Object.values(colMap(wh))`. */
  lemma ColumnsOfColMap(wh: string)
    ensures ColumnsOf(wh) == ColMap(wh).Values()
  {
  }

  /** Each of the five columns is among them. */
  lemma ColumnsOfContains(wh: string, f: Field)
    ensures ColumnName(f, wh) in ColumnsOf(wh)
  {
    var cs := ColumnsOf(wh);
    match f
    case Inv => assert cs[0] == ColumnName(f, wh);
    case Cls => assert cs[1] == ColumnName(f, wh);
    case Prom => assert cs[2] == ColumnName(f, wh);
    case CobMes => assert cs[3] == ColumnName(f, wh);
    case CobDias => assert cs[4] == ColumnName(f, wh);
  }

  /** A header made of the five columns of each warehouse in `ws`, warehouse after warehouse. */
  function LayoutOf(ws: seq<string>): seq<string> {
    if ws == [] then [] else LayoutOf(ws[..|ws| - 1]) + ColumnsOf(ws[|ws| - 1])
  }

  /** Of a warehouse's columns only the inventory one starts with `Inv-`, and its suffix is the name. */
  lemma InventoryColumnOf(f: Field, wh: string)
    ensures IsInventoryColumn(ColumnName(f, wh)) <==> f == Inv
    ensures f == Inv ==> InventorySuffix(ColumnName(f, wh)) == wh
  {
    if f == Inv {
      assert ColumnName(Inv, wh)[..4] == Prefix(Inv);
      assert ColumnName(Inv, wh)[4..] == wh;
    } else {
      PrefixesDisjoint(Inv, f, wh);
    }
  }

  /** Only the inventory column of a warehouse is read back, and it gives the warehouse. */
  lemma InventorySuffixesOfColumns(wh: string)
    ensures InventorySuffixes(ColumnsOf(wh)) == [wh]
  {
    var cs := ColumnsOf(wh);
    forall i | 0 <= i < |cs| ensures IsInventoryColumn(cs[i]) <==> i == 0 {
      InventoryColumnOf(Fields[i], wh);
    }
    InventoryColumnOf(Inv, wh);
    OnlyFirstIsInventory(cs);
  }

  /** A single inventory column gives its suffix. */
  lemma SingleInventoryColumn(c: string)
    requires IsInventoryColumn(c)
    ensures InventorySuffixes([c]) == [InventorySuffix(c)]
  {
    var cs := [c];
    assert cs[..0] == [];
  }

  /** When only the first column starts with `Inv-`, it alone is collected. */
  lemma OnlyFirstIsInventory(cols: seq<string>)
    requires |cols| >= 1 && IsInventoryColumn(cols[0])
    requires forall i :: 1 <= i < |cols| ==> !IsInventoryColumn(cols[i])
    ensures InventorySuffixes(cols) == [InventorySuffix(cols[0])]
  {
    var rest := cols[1..];
    assert [cols[0]] + rest == cols;
    assert forall i :: 0 <= i < |rest| ==> !IsInventoryColumn(rest[i]);
    NoInventoryColumns(rest);
    SingleInventoryColumn(cols[0]);
    InventorySuffixesAppend([cols[0]], rest);
  }

  /** Columns none of which starts with `Inv-` name no warehouse. */
  lemma {:induction false} NoInventoryColumns(cols: seq<string>)
    requires forall i :: 0 <= i < |cols| ==> !IsInventoryColumn(cols[i])
    ensures InventorySuffixes(cols) == []
  {
    if cols != [] {
      NoInventoryColumns(cols[..|cols| - 1]);
    }
  }

  /** The header laid out for some warehouse names carries those names as its inventory suffixes. */
  lemma {:induction false} InventorySuffixesOfLayout(ws: seq<string>)
    ensures InventorySuffixes(LayoutOf(ws)) == ws
  {
    if ws != [] {
      var init := ws[..|ws| - 1];
      var last := ws[|ws| - 1];
      calc {
        InventorySuffixes(LayoutOf(ws));
        InventorySuffixes(LayoutOf(init) + ColumnsOf(last));
        { InventorySuffixesAppend(LayoutOf(init), ColumnsOf(last)); }
        InventorySuffixes(LayoutOf(init)) + InventorySuffixes(ColumnsOf(last));
        { InventorySuffixesOfLayout(init); InventorySuffixesOfColumns(last); }
        init + [last];
        ws;
      }
    }
  }

  /** Laid out for trimmed names, the header gives those names back as its warehouses, in order. */
  lemma WarehousesOfLayout(ws: seq<string>)
    requires forall i :: 0 <= i < |ws| ==> IsTrimmed(ws[i])
    ensures WarehousesOf(LayoutOf(ws)) == ws
  {
    InventorySuffixesOfLayout(ws);
    TrimAllOfTrimmed(ws);
  }

  // ----- validateMaster -----

  /** Why a loaded table is refused: the message `validateMaster` throws, as data. */
  datatype LoadError =
    | EmptyFile
    | MissingColumn(column: string)
    | NoWarehouseColumns
    | MissingWarehouseColumn(column: string, warehouse: string)

  /** The first column of `colMap(wh)`, in its order, that `cols` lacks. */
  function FirstMissing(cols: seq<string>, names: seq<string>): (r: Option<string>)
    ensures r.None? <==> forall i :: 0 <= i < |names| ==> names[i] in cols
    ensures r.Some? ==> r.value in names && r.value !in cols
    ensures r.Some? ==> exists k :: 0 <= k < |names| && names[k] == r.value && forall j :: 0 <= j < k ==> names[j] in cols
  {
    if names == [] then None
    else if names[0] !in cols then Some(names[0])
    else
      var rest := FirstMissing(cols, names[1..]);
      FirstMissingShift(cols, names, rest);
      rest
  }

  /** An answer found after a present first name is found at the next index of the whole list. */
  lemma FirstMissingShift(cols: seq<string>, names: seq<string>, rest: Option<string>)
    requires names != [] && names[0] in cols
    requires rest.Some? ==> exists k :: 0 <= k < |names[1..]| && names[1..][k] == rest.value && forall j :: 0 <= j < k ==> names[1..][j] in cols
    ensures rest.Some? ==> exists k :: 0 <= k < |names| && names[k] == rest.value && forall j :: 0 <= j < k ==> names[j] in cols
  {
    if rest.Some? {
      var k :| 0 <= k < |names[1..]| && names[1..][k] == rest.value && forall j :: 0 <= j < k ==> names[1..][j] in cols;
      assert names[k + 1] == rest.value;
      forall j | 0 <= j < k + 1 ensures names[j] in cols {
        if j > 0 { assert names[j] == names[1..][j - 1]; }
      }
    }
  }

  /**
   * Warehouse `ws[k]` lacks column `m.0` and names it first among its own
   * columns, and `ws[k]` is `m.1`; every earlier warehouse has all its columns.
   */
  predicate MissingAt(cols: seq<string>, ws: seq<string>, k: int, m: (string, string)) {
    && 0 <= k < |ws|
    && ws[k] == m.1
    && FirstMissing(cols, ColMap(ws[k]).Values()) == Some(m.0)
    && forall j, f :: 0 <= j < k ==> ColumnName(f, ws[j]) in cols
  }

  /** The first warehouse, in order, lacking one of its columns, with the first such column. */
  function FirstMissingColumn(cols: seq<string>, ws: seq<string>): (r: Option<(string, string)>)
    ensures r.None? <==> forall i, f :: 0 <= i < |ws| ==> ColumnName(f, ws[i]) in cols
    ensures r.Some? ==> r.value.1 in ws && r.value.0 !in cols && ParseColumn(r.value.0) != None
    ensures r.Some? ==> exists k :: MissingAt(cols, ws, k, r.value)
  {
    if ws == [] then None
    else
      match FirstMissing(cols, ColMap(ws[0]).Values())
      case Some(c) =>
        assert exists f :: c == ColumnName(f, ws[0]);
        var f :| c == ColumnName(f, ws[0]);
        ParseColumnName(f, ws[0]);
        assert MissingAt(cols, ws, 0, (c, ws[0]));
        Some((c, ws[0]))
      case None =>
        var rest := FirstMissingColumn(cols, ws[1..]);
        assert forall f :: ColumnName(f, ws[0]) in cols by {
          forall f ensures ColumnName(f, ws[0]) in cols {
            ColumnsOfContains(ws[0], f);
          }
        }
        assert forall i, f :: 1 <= i < |ws| ==> ColumnName(f, ws[i]) == ColumnName(f, ws[1..][i - 1]);
        FirstMissingColumnShift(cols, ws, rest);
        rest
  }

  /** An answer found after a complete first warehouse is found at the next index of the whole list. */
  lemma FirstMissingColumnShift(cols: seq<string>, ws: seq<string>, rest: Option<(string, string)>)
    requires ws != [] && forall f :: ColumnName(f, ws[0]) in cols
    requires rest.Some? ==> exists k :: MissingAt(cols, ws[1..], k, rest.value)
    ensures rest.Some? ==> exists k :: MissingAt(cols, ws, k, rest.value)
  {
    if rest.Some? {
      var k :| MissingAt(cols, ws[1..], k, rest.value);
      assert ws[k + 1] == ws[1..][k];
      forall j, f | 0 <= j < k + 1 ensures ColumnName(f, ws[j]) in cols {
        if j > 0 { assert ws[j] == ws[1..][j - 1]; }
      }
      assert MissingAt(cols, ws, k + 1, rest.value);
    }
  }

  /** What a table must satisfy to be accepted. */
  predicate Acceptable(rows: seq<Row>) {
    && rows != []
    && "Codigo" in rows[0].keys
    && "desc_prod" in rows[0].keys
    && DetectWarehouses(rows) != []
    && forall i, f :: 0 <= i < |DetectWarehouses(rows)| ==> ColumnName(f, DetectWarehouses(rows)[i]) in rows[0].keys
  }

  /**
   * `validateMaster(rows)`: the detected warehouses, or the first failure in
   * the order the checks run. Only the first row's keys are consulted.
   */
  function ValidateMaster(rows: seq<Row>): (r: Result<seq<string>, LoadError>)
    ensures r.Ok? <==> Acceptable(rows)
    ensures r.Ok? ==> r.value == DetectWarehouses(rows) && r.value != []
    ensures r == Err(EmptyFile) <==> rows == []
    ensures r == Err(MissingColumn("Codigo")) <==> rows != [] && "Codigo" !in rows[0].keys
    ensures r == Err(MissingColumn("desc_prod")) <==>
      rows != [] && "Codigo" in rows[0].keys && "desc_prod" !in rows[0].keys
    ensures r == Err(NoWarehouseColumns) <==>
      rows != [] && "Codigo" in rows[0].keys && "desc_prod" in rows[0].keys && DetectWarehouses(rows) == []
    ensures r.Err? && r.error.MissingWarehouseColumn? ==>
      r.error.warehouse in DetectWarehouses(rows) && r.error.column !in rows[0].keys
    ensures r.Err? && r.error.MissingWarehouseColumn? <==>
      && rows != [] && "Codigo" in rows[0].keys && "desc_prod" in rows[0].keys && DetectWarehouses(rows) != []
      && FirstMissingColumn(rows[0].keys, DetectWarehouses(rows)).Some?
    ensures r.Err? && r.error.MissingWarehouseColumn? ==>
      FirstMissingColumn(rows[0].keys, DetectWarehouses(rows)) == Some((r.error.column, r.error.warehouse))
  {
    if rows == [] then Err(EmptyFile)
    else
      var cols := rows[0].keys;
      if "Codigo" !in cols then Err(MissingColumn("Codigo"))
      else if "desc_prod" !in cols then Err(MissingColumn("desc_prod"))
      else
        var ws := DetectWarehouses(rows);
        if ws == [] then Err(NoWarehouseColumns)
        else
          match FirstMissingColumn(cols, ws)
          case Some((c, wh)) => Err(MissingWarehouseColumn(c, wh))
          case None => Ok(ws)
  }

  /**
   * A header made of leading columns that include `Codigo` and `desc_prod` but
   * no inventory column, followed by the five columns of each trimmed
   * warehouse name, is accepted with exactly those warehouses.
   */
  lemma ValidateLayout(r: Row, fixed: seq<string>, ws: seq<string>)
    requires "Codigo" in fixed && "desc_prod" in fixed && InventorySuffixes(fixed) == []
    requires ws != [] && forall i :: 0 <= i < |ws| ==> IsTrimmed(ws[i])
    requires r.keys == fixed + LayoutOf(ws)
    ensures ValidateMaster([r]) == Ok(ws)
  {
    LayoutAcceptable(r, fixed, ws);
  }

  /** Such a header meets every requirement, and its warehouses are `ws`. */
  lemma LayoutAcceptable(r: Row, fixed: seq<string>, ws: seq<string>)
    requires "Codigo" in fixed && "desc_prod" in fixed && InventorySuffixes(fixed) == []
    requires ws != [] && forall i :: 0 <= i < |ws| ==> IsTrimmed(ws[i])
    requires r.keys == fixed + LayoutOf(ws)
    ensures Acceptable([r]) && DetectWarehouses([r]) == ws
  {
    FixedLayoutWarehouses(fixed, ws);
    forall i, f | 0 <= i < |ws| ensures ColumnName(f, ws[i]) in r.keys {
      LayoutContains(ws, i, f);
    }
  }

  /** The leading columns name no warehouse, so such a header detects exactly `ws`. */
  lemma FixedLayoutWarehouses(fixed: seq<string>, ws: seq<string>)
    requires InventorySuffixes(fixed) == []
    requires forall i :: 0 <= i < |ws| ==> IsTrimmed(ws[i])
    ensures WarehousesOf(fixed + LayoutOf(ws)) == ws
  {
    calc {
      InventorySuffixes(fixed + LayoutOf(ws));
      { InventorySuffixesAppend(fixed, LayoutOf(ws)); }
      InventorySuffixes(fixed) + InventorySuffixes(LayoutOf(ws));
      { InventorySuffixesOfLayout(ws); }
      ws;
    }
    TrimAllOfTrimmed(ws);
  }

  /** `Codigo` and `desc_prod` are not inventory columns. */
  lemma FixedColumnsNoWarehouses()
    ensures InventorySuffixes(["Codigo", "desc_prod"]) == []
  {
    var c: string := "Codigo";
    var d: string := "desc_prod";
    var cols: seq<string> := [c, d];
    assert c[0] != Prefix(Inv)[0] && d[0] != Prefix(Inv)[0];
    assert c[..4] != Prefix(Inv) && d[..4] != Prefix(Inv);
    assert cols[..1] == [c];
    assert cols[..1][..0] == [];
  }

  /** Every column of every warehouse appears in its layout. */
  lemma {:induction false} LayoutContains(ws: seq<string>, i: nat, f: Field)
    requires i < |ws|
    ensures ColumnName(f, ws[i]) in LayoutOf(ws)
  {
    if i < |ws| - 1 {
      LayoutContains(ws[..|ws| - 1], i, f);
    } else {
      ColumnsOfContains(ws[i], f);
    }
  }
}
