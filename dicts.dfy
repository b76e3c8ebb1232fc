/** Python dictionaries with string keys, as values. A dict iterates in insertion
    order, so it is its key sequence in that order together with its key-value map. */
module Dicts {

  datatype Dict<V> = Dict(keys: seq<string>, items: map<string, V>)

  predicate Distinct(ks: seq<string>)
  {
    forall i, j :: 0 <= i < j < |ks| ==> ks[i] != ks[j]
  }

  /** The key sequence lists every key of the map exactly once. */
  predicate Valid<V>(d: Dict<V>)
  {
    && Distinct(d.keys)
    && (forall k | k in d.items :: k in d.keys)
    && (forall i | 0 <= i < |d.keys| :: d.keys[i] in d.items)
  }

  function Empty<V>(): (d: Dict<V>)
    ensures Valid(d) && d.items == map[]
  {
    Dict([], map[])
  }

  /** The dict after `d.setdefault(k, v)`: a missing key is inserted last with v, a
      present key keeps its value and its place. */
  function SetDefault<V>(d: Dict<V>, k: string, v: V): (r: Dict<V>)
    ensures k in r.items
    ensures Valid(d) ==> Valid(r)
    ensures k in d.items ==> r.items[k] == d.items[k]
    ensures r.items.Keys == d.items.Keys + {k}
    ensures forall j :: j in d.items ==> r.items[j] == d.items[j]
  {
    if k in d.items then d else Dict(d.keys + [k], d.items[k := v])
  }

  /** The dict after `d[k] = v` for a key already present: order unchanged. */
  function Update<V>(d: Dict<V>, k: string, v: V): (r: Dict<V>)
    requires k in d.items
    ensures Valid(d) ==> Valid(r)
    ensures r.keys == d.keys && r.items.Keys == d.items.Keys && r.items[k] == v
    ensures forall j :: j in d.items && j != k ==> r.items[j] == d.items[j]
  {
    Dict(d.keys, d.items[k := v])
  }

  /** The sum of f over the values of the listed keys, in key order (Python's
      `sum(f(v) for v in d.values())`). */
  function SumBy<V>(ks: seq<string>, items: map<string, V>, f: V -> nat): nat
  {
    if ks == [] then 0
    else
      var k := ks[|ks| - 1];
      SumBy(ks[..|ks| - 1], items, f) + (if k in items then f(items[k]) else 0)
  }

  /** Changing the value of a key that is not listed leaves the sum alone. */
  lemma {:induction false} SumByFrame<V>(ks: seq<string>, items: map<string, V>, k: string, v: V, f: V -> nat)
    requires k !in ks
    ensures SumBy(ks, items[k := v], f) == SumBy(ks, items, f)
  {
    if ks != [] {
      SumByFrame(ks[..|ks| - 1], items, k, v, f);
    }
  }

  /** Inserting a new key last adds its value to the sum. */
  lemma SumByAppend<V>(ks: seq<string>, items: map<string, V>, k: string, v: V, f: V -> nat)
    requires k !in ks
    ensures SumBy(ks + [k], items[k := v], f) == SumBy(ks, items, f) + f(v)
  {
    assert (ks + [k])[..|ks|] == ks;
    SumByFrame(ks, items, k, v, f);
  }

  /** Replacing the value of a listed key replaces its share of the sum. */
  lemma {:induction false} SumByUpdate<V>(ks: seq<string>, items: map<string, V>, k: string, v: V, f: V -> nat)
    requires Distinct(ks) && k in ks && k in items
    ensures SumBy(ks, items[k := v], f) + f(items[k]) == SumBy(ks, items, f) + f(v)
  {
    var init, last := ks[..|ks| - 1], ks[|ks| - 1];
    if last == k {
      assert k !in init by {
        forall i | 0 <= i < |init| ensures init[i] != k {
          assert init[i] == ks[i];
        }
      }
      SumByFrame(init, items, k, v, f);
    } else {
      assert Distinct(init) by {
        forall i, j | 0 <= i < j < |init| ensures init[i] != init[j] {
          assert init[i] == ks[i] && init[j] == ks[j];
        }
      }
      var i :| 0 <= i < |ks| && ks[i] == k;
      assert i < |ks| - 1 && init[i] == k;
      SumByUpdate(init, items, k, v, f);
    }
  }

  /** A listed value never exceeds the sum. */
  lemma {:induction false} SumByBound<V>(ks: seq<string>, items: map<string, V>, k: string, f: V -> nat)
    requires k in ks && k in items
    ensures f(items[k]) <= SumBy(ks, items, f)
  {
    if ks[|ks| - 1] != k {
      var i :| 0 <= i < |ks| && ks[i] == k;
      assert ks[..|ks| - 1][i] == k;
      SumByBound(ks[..|ks| - 1], items, k, f);
    }
  }
}
