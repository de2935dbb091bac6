/**
 * A row of the master table: a JavaScript object from column name to cell
 * value. `keys` keeps the insertion order `Object.keys` reports; `cells` holds
 * the values.
 */
module Rows {
  import opened JsValues

  datatype Row = Row(keys: seq<string>, cells: map<string, Value>) {

    /** Every key is listed once, and the listed keys are exactly the keys that hold a value. */
    ghost predicate Valid() {
      && (forall i, j :: 0 <= i < j < |keys| ==> keys[i] != keys[j])
      && (forall k :: k in cells <==> k in keys)
    }

    /** `k in row`. */
    predicate Has(k: string) {
      k in cells
    }

    /** `row[k]`: `undefined` for a missing key. */
    function Get(k: string): Value {
      if k in cells then cells[k] else Undefined
    }

    /** `row[k] = v`: an existing key keeps its position, a new key goes last. */
    function Set(k: string, v: Value): (r: Row)
      ensures r.Has(k) && r.Get(k) == v
      ensures Valid() ==> r.Valid()
      ensures Valid() && Has(k) ==> r.keys == keys
      ensures Valid() && !Has(k) ==> r.keys == keys + [k]
    {
      if k in cells then Row(keys, cells[k := v]) else Row(keys + [k], cells[k := v])
    }
  }

  /** Two rows with the same keys and the same value under each key hold the same cells. */
  lemma SameCells(a: Row, b: Row)
    requires a.cells.Keys == b.cells.Keys
    requires forall k :: k in a.cells ==> a.Get(k) == b.Get(k)
    ensures a.cells == b.cells
  {
  }

  /** `{}`. */
  const EmptyRow: Row := Row([], map[])

  /** The keys of the pairs, in order (duplicates kept). */
  function Firsts(ps: seq<(string, Value)>): (ks: seq<string>)
    ensures |ks| == |ps|
    ensures forall i :: 0 <= i < |ps| ==> ks[i] == ps[i].0
  {
    if ps == [] then [] else Firsts(ps[..|ps| - 1]) + [ps[|ps| - 1].0]
  }

  /** The object built by assigning the pairs in order, `obj[k] = v` for each `(k, v)`. */
  function FromPairs(ps: seq<(string, Value)>): (r: Row)
    ensures r.Valid()
    ensures forall k :: r.Has(k) <==> k in Firsts(ps)
  {
    if ps == [] then EmptyRow
    else
      var prev := FromPairs(ps[..|ps| - 1]);
      assert Firsts(ps) == Firsts(ps[..|ps| - 1]) + [ps[|ps| - 1].0];
      prev.Set(ps[|ps| - 1].0, ps[|ps| - 1].1)
  }

  /** Assigning one more pair. */
  lemma FromPairsSnoc(ps: seq<(string, Value)>, p: (string, Value))
    ensures FromPairs(ps + [p]) == FromPairs(ps).Set(p.0, p.1)
  {
    assert (ps + [p])[..|ps|] == ps;
  }

  /** When a key is assigned several times the last assignment wins. */
  lemma {:induction false} FromPairsLastWins(ps: seq<(string, Value)>, i: nat)
    requires i < |ps|
    requires forall j :: i < j < |ps| ==> ps[j].0 != ps[i].0
    ensures FromPairs(ps).Get(ps[i].0) == ps[i].1
  {
    var init := ps[..|ps| - 1];
    var last := ps[|ps| - 1];
    assert FromPairs(ps) == FromPairs(init).Set(last.0, last.1);
    if i < |ps| - 1 {
      assert init[i] == ps[i];
      assert forall j :: i < j < |init| ==> init[j].0 != init[i].0 by {
        forall j | i < j < |init| ensures init[j].0 != init[i].0 {
          assert init[j] == ps[j];
        }
      }
      FromPairsLastWins(init, i);
      SetOther(FromPairs(init), last.0, last.1, ps[i].0);
    }
  }

  /** Assigning one key leaves the value under every other key as it was. */
  lemma SetOther(r: Row, k: string, v: Value, k': string)
    requires k' != k
    ensures r.Set(k, v).Get(k') == r.Get(k')
  {
  }

  /** With distinct keys, the object lists the keys in the order they were assigned. */
  lemma {:induction false} FromPairsDistinctKeys(ps: seq<(string, Value)>)
    requires forall i, j :: 0 <= i < j < |ps| ==> ps[i].0 != ps[j].0
    ensures FromPairs(ps).keys == Firsts(ps)
  {
    if ps != [] {
      var init := ps[..|ps| - 1];
      FromPairsDistinctKeys(init);
      var prev := FromPairs(init);
      assert !prev.Has(ps[|ps| - 1].0) by {
        forall i | 0 <= i < |init| ensures init[i].0 != ps[|ps| - 1].0 {
          assert init[i] == ps[i];
        }
      }
      assert FromPairs(ps).keys == prev.keys + [ps[|ps| - 1].0];
    }
  }
}
