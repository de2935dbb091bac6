/**
 * `coerceTypes` (app.js:233-255): after validation, every row is copied and
 * its cells are given their types. The identification columns and each
 * warehouse's classification become trimmed text, the four numeric columns of
 * each warehouse become finite numbers, and every other cell is left alone.
 * The months figure is read from the first row.
 */
module Coerce {
  import opened Wrappers
  import opened JsText
  import opened JsValues
  import opened Rows
  import opened Schema

  /** `String(v ?? "").trim()`, stored back as text. */
  function TextCell(v: Value, rt: Runtime): (c: Value)
    ensures c.Str? && IsTrimmed(c.s)
  {
    Str(Trim(NullishToStr(v, rt)))
  }

  /** `safeNum(v)`, stored back as a number. */
  function NumberCell(v: Value, rt: Runtime): (c: Value)
    ensures c.Num? && ToNumber(c, rt).Finite?
  {
    Num(SafeNum(v, rt))
  }

  /** The coercion applied to field `f` of a warehouse: text for the classification, a number otherwise. */
  function CoerceCell(f: Field, v: Value, rt: Runtime): Value {
    if f == Cls then TextCell(v, rt) else NumberCell(v, rt)
  }

  /** Coercing a coerced cell again changes nothing. */
  lemma CoerceCellIdempotent(f: Field, v: Value, rt: Runtime)
    ensures CoerceCell(f, CoerceCell(f, v, rt), rt) == CoerceCell(f, v, rt)
  {
    if f == Cls {
      TrimIdempotent(NullishToStr(v, rt));
    } else {
      SafeNumIdempotent(v, rt);
    }
  }

  /** The order in which the inner loop's body assigns a warehouse's five columns. */
  const AssignmentOrder: seq<Field> := [Inv, Prom, CobMes, CobDias, Cls]

  /** One assignment of the inner loop's body: `r[col] = coerce(r[col])` for the column of field `f`. */
  function AssignField(r: Row, wh: string, f: Field, rt: Runtime): Row {
    var c := ColumnName(f, wh);
    r.Set(c, CoerceCell(f, r.Get(c), rt))
  }

  /** The assignments for each field of `fs` in turn. */
  function CoerceFields(r: Row, wh: string, fs: seq<Field>, rt: Runtime): Row {
    if fs == [] then r else AssignField(CoerceFields(r, wh, fs[..|fs| - 1], rt), wh, fs[|fs| - 1], rt)
  }

  /** The body of the inner loop for one warehouse: its five assignments, in the order of `AssignmentOrder`. */
  function CoerceWarehouse(r: Row, wh: string, rt: Runtime): Row {
    CoerceFields(r, wh, AssignmentOrder, rt)
  }

  /** The inner loop: each warehouse of `ws` in turn. */
  function CoerceWarehouses(r: Row, ws: seq<string>, rt: Runtime): Row {
    if ws == [] then r else CoerceWarehouse(CoerceWarehouses(r, ws[..|ws| - 1], rt), ws[|ws| - 1], rt)
  }

  /** One row of the result: the two identification columns, then the warehouses. */
  function CoerceRow(r: Row, ws: seq<string>, rt: Runtime): Row {
    var r1 := r.Set("Codigo", TextCell(r.Get("Codigo"), rt));
    var r2 := r1.Set("desc_prod", TextCell(r1.Get("desc_prod"), rt));
    CoerceWarehouses(r2, ws, rt)
  }

  /** Every row of the result. */
  function CoerceRows(rows: seq<Row>, ws: seq<string>, rt: Runtime): (out: seq<Row>)
    ensures |out| == |rows|
  {
    seq(|rows|, i requires 0 <= i < |rows| => CoerceRow(rows[i], ws, rt))
  }

  /**
   * `MONTHS_USED`: the first row's `MesesUsados` through `safeNum`, with
   * `|| null` turning a missing column or a 0 into `null` (`None`).
   */
  function MonthsUsed(first: Row, rt: Runtime): (months: Option<real>)
    ensures months.None? <==> !first.Has("MesesUsados") || SafeNum(first.Get("MesesUsados"), rt) == 0.0
    ensures months.Some? ==> months.value == SafeNum(first.Get("MesesUsados"), rt)
  {
    if first.Has("MesesUsados") then
      var n := SafeNum(first.Get("MesesUsados"), rt);
      if n == 0.0 then None else Some(n)
    else None
  }

  /** Coercing one more warehouse. */
  lemma CoerceWarehousesSnoc(r: Row, ws: seq<string>, w: nat, rt: Runtime)
    requires w < |ws|
    ensures CoerceWarehouses(r, ws[..w + 1], rt) == CoerceWarehouse(CoerceWarehouses(r, ws[..w], rt), ws[w], rt)
  {
    assert ws[..w + 1][..w] == ws[..w];
  }

  /** The body of the outer loop: the identification columns, then every warehouse in turn. */
  method CoerceRowFields(row: Row, ws: seq<string>, rt: Runtime) returns (r: Row)
    ensures r == CoerceRow(row, ws, rt)
  {
    r := row.Set("Codigo", TextCell(row.Get("Codigo"), rt));
    r := r.Set("desc_prod", TextCell(r.Get("desc_prod"), rt));
    ghost var base := r;
    var w := 0;
    while w < |ws|
      invariant 0 <= w <= |ws|
      invariant r == CoerceWarehouses(base, ws[..w], rt)
    {
      CoerceWarehousesSnoc(base, ws, w, rt);
      r := CoerceWarehouse(r, ws[w], rt);
      w := w + 1;
    }
    assert ws[..w] == ws;
  }

  /**
   * `coerceTypes(rows, warehouses)`. The rows are values here, so the copy the
   * source makes first is the assignment `out := rows`: the caller's rows are
   * never changed. `rows` must not be empty: the source reads `out[0]`.
   */
  method CoerceTypes(rows: seq<Row>, ws: seq<string>, rt: Runtime) returns (out: seq<Row>, months: Option<real>)
    requires |rows| > 0
    ensures out == CoerceRows(rows, ws, rt)
    ensures months == MonthsUsed(rows[0], rt)
  {
    out := rows;
    months := None;
    if "MesesUsados" in out[0].cells {
      var n := SafeNum(out[0].Get("MesesUsados"), rt);
      months := if n == 0.0 then None else Some(n);
    }
    var i := 0;
    while i < |out|
      invariant 0 <= i <= |out| == |rows|
      invariant forall j :: 0 <= j < i ==> out[j] == CoerceRow(rows[j], ws, rt)
      invariant forall j :: i <= j < |out| ==> out[j] == rows[j]
    {
      var r := CoerceRowFields(out[i], ws, rt);
      out := out[i := r];
      i := i + 1;
    }
  }

  // ----- what a coerced row holds -----

  /** What the warehouse loop leaves under key `k`, given the value `v` it started with. */
  function WarehouseCell(k: string, v: Value, ws: seq<string>, rt: Runtime): Value {
    match ParseColumn(k)
    case Some((f, wh)) => if wh in ws then CoerceCell(f, v, rt) else v
    case None => v
  }

  /** What `coerceTypes` leaves under key `k`, given the value `v` the row had there. */
  function CoercedValue(k: string, v: Value, ws: seq<string>, rt: Runtime): Value {
    if k == "Codigo" || k == "desc_prod" then TextCell(v, rt) else WarehouseCell(k, v, ws, rt)
  }

  /** What the assignments for the fields `fs` of warehouse `wh` leave under key `k`, given the value `v` it had. */
  function FieldsCell(k: string, v: Value, wh: string, fs: seq<Field>, rt: Runtime): Value {
    match ParseColumn(k)
    case Some((f, w)) => if w == wh && f in fs then CoerceCell(f, v, rt) else v
    case None => v
  }

  /** Assigning distinct fields changes exactly their columns, each once. */
  lemma {:induction false} CoerceFieldsGet(r: Row, wh: string, fs: seq<Field>, rt: Runtime, k: string)
    requires forall i, j :: 0 <= i < j < |fs| ==> fs[i] != fs[j]
    ensures CoerceFields(r, wh, fs, rt).Get(k) == FieldsCell(k, r.Get(k), wh, fs, rt)
  {
    if fs != [] {
      var init := fs[..|fs| - 1];
      var g := fs[|fs| - 1];
      assert fs == init + [g];
      CoerceFieldsGet(r, wh, init, rt, k);
      AssignFieldGet(CoerceFields(r, wh, init, rt), wh, g, rt, k);
      assert g !in init by {
        forall i | 0 <= i < |init| ensures init[i] != g {
          assert init[i] == fs[i];
        }
      }
      FieldsCellSnoc(k, r.Get(k), wh, init, g, rt);
    }
  }

  /** One assignment changes its own column and no other. */
  lemma AssignFieldGet(r: Row, wh: string, f: Field, rt: Runtime, k: string)
    ensures AssignField(r, wh, f, rt).Get(k) == if k == ColumnName(f, wh) then CoerceCell(f, r.Get(k), rt) else r.Get(k)
  {
  }

  /** Adding a field not yet assigned coerces its own column and leaves every other column's outcome as it was. */
  lemma FieldsCellSnoc(k: string, v: Value, wh: string, init: seq<Field>, g: Field, rt: Runtime)
    requires g !in init
    ensures k == ColumnName(g, wh) ==> FieldsCell(k, v, wh, init, rt) == v
    ensures FieldsCell(k, v, wh, init + [g], rt) ==
      if k == ColumnName(g, wh) then CoerceCell(g, v, rt) else FieldsCell(k, v, wh, init, rt)
  {
    if k == ColumnName(g, wh) {
      ParseColumnName(g, wh);
    } else if ParseColumn(k).Some? {
      ColumnNameOfParse(k);
    }
  }

  /** One warehouse changes exactly its own five columns. */
  lemma CoerceWarehouseGet(r: Row, wh: string, rt: Runtime, k: string)
    ensures CoerceWarehouse(r, wh, rt).Get(k) == WarehouseCell(k, r.Get(k), [wh], rt)
  {
    var o := AssignmentOrder;
    assert forall i, j :: 0 <= i < j < |o| ==> o[i] != o[j];
    CoerceFieldsGet(r, wh, o, rt, k);
    forall f ensures f in o {
      match f
      case Inv => assert o[0] == f;
      case Prom => assert o[1] == f;
      case CobMes => assert o[2] == f;
      case CobDias => assert o[3] == f;
      case Cls => assert o[4] == f;
    }
  }

  /** The warehouse loop coerces a column exactly when its warehouse is among `ws`. */
  lemma {:induction false} CoerceWarehousesGet(r: Row, ws: seq<string>, rt: Runtime, k: string)
    ensures CoerceWarehouses(r, ws, rt).Get(k) == WarehouseCell(k, r.Get(k), ws, rt)
  {
    if ws != [] {
      var init := ws[..|ws| - 1];
      var last := ws[|ws| - 1];
      CoerceWarehousesGet(r, init, rt, k);
      CoerceWarehouseGet(CoerceWarehouses(r, init, rt), last, rt, k);
      assert ws == init + [last];
      WarehouseCellSnoc(k, r.Get(k), init, last, rt);
    }
  }

  /** One more warehouse coerces the cell again when its column belongs to that warehouse, which changes nothing the second time. */
  lemma WarehouseCellSnoc(k: string, v: Value, init: seq<string>, last: string, rt: Runtime)
    ensures WarehouseCell(k, v, init + [last], rt) == WarehouseCell(k, WarehouseCell(k, v, init, rt), [last], rt)
  {
    match ParseColumn(k)
    case Some((f, wh)) =>
      if wh in init && wh == last {
        CoerceCellIdempotent(f, v, rt);
      }
    case None =>
  }

  /** The cell under any key of a coerced row, in terms of the original cell. */
  lemma CoerceRowGet(r: Row, ws: seq<string>, rt: Runtime, k: string)
    ensures CoerceRow(r, ws, rt).Get(k) == CoercedValue(k, r.Get(k), ws, rt)
  {
    var r1 := r.Set("Codigo", TextCell(r.Get("Codigo"), rt));
    var r2 := r1.Set("desc_prod", TextCell(r1.Get("desc_prod"), rt));
    CoerceWarehousesGet(r2, ws, rt, k);
    FixedColumnsAreNotWarehouseColumns();
  }

  /**
   * The promises of `coerceTypes` for one row: the identification columns and
   * every classification are trimmed text, the four numeric columns of every
   * warehouse are finite numbers (0 when the cell did not convert), and a key
   * that is none of these keeps its value.
   */
  lemma CoercedRowShape(r: Row, ws: seq<string>, rt: Runtime)
    ensures var c := CoerceRow(r, ws, rt);
      && c.Get("Codigo") == Str(Trim(NullishToStr(r.Get("Codigo"), rt)))
      && c.Get("desc_prod") == Str(Trim(NullishToStr(r.Get("desc_prod"), rt)))
      && (forall i :: 0 <= i < |ws| ==>
            c.Get(ColumnName(Cls, ws[i])) == Str(Trim(NullishToStr(r.Get(ColumnName(Cls, ws[i])), rt))))
      && (forall i, f :: 0 <= i < |ws| && f != Cls ==>
            c.Get(ColumnName(f, ws[i])) == Num(SafeNum(r.Get(ColumnName(f, ws[i])), rt)))
      && (forall k :: k != "Codigo" && k != "desc_prod" && (ParseColumn(k).None? || ParseColumn(k).value.1 !in ws) ==>
            c.Get(k) == r.Get(k))
  {
    var c := CoerceRow(r, ws, rt);
    CoerceRowGet(r, ws, rt, "Codigo");
    CoerceRowGet(r, ws, rt, "desc_prod");
    forall i, f | 0 <= i < |ws| ensures c.Get(ColumnName(f, ws[i])) == CoerceCell(f, r.Get(ColumnName(f, ws[i])), rt) {
      CoerceRowGet(r, ws, rt, ColumnName(f, ws[i]));
      ParseColumnName(f, ws[i]);
      FixedColumnNames(f, ws[i]);
    }
    forall k | k != "Codigo" && k != "desc_prod" && (ParseColumn(k).None? || ParseColumn(k).value.1 !in ws)
      ensures c.Get(k) == r.Get(k)
    {
      CoerceRowGet(r, ws, rt, k);
    }
  }

  /** No warehouse column is called `Codigo` or `desc_prod`. */
  lemma FixedColumnNames(f: Field, wh: string)
    ensures ColumnName(f, wh) != "Codigo" && ColumnName(f, wh) != "desc_prod"
  {
    FixedColumnsAreNotWarehouseColumns();
    ParseColumnName(f, wh);
  }

  /** Coercing an already coerced row gives the same cells. */
  lemma CoerceRowIdempotent(r: Row, ws: seq<string>, rt: Runtime, k: string)
    ensures CoerceRow(CoerceRow(r, ws, rt), ws, rt).Get(k) == CoerceRow(r, ws, rt).Get(k)
  {
    var c := CoerceRow(r, ws, rt);
    CoerceRowGet(r, ws, rt, k);
    CoerceRowGet(c, ws, rt, k);
    if k == "Codigo" || k == "desc_prod" {
      TrimIdempotent(NullishToStr(r.Get(k), rt));
    } else {
      match ParseColumn(k)
      case Some((f, wh)) =>
        if wh in ws {
          CoerceCellIdempotent(f, r.Get(k), rt);
        }
      case None =>
    }
  }
}
