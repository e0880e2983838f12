/** Python's `dict`: a finite map that also remembers the order in which
    its keys were first inserted (the order `json.dump` writes them in). */
module Dicts {

  /** `order` lists the keys, each once, in first-insertion order;
      `entries` holds the values. */
  datatype Dict<K(==, !new), V> = Dict(order: seq<K>, entries: map<K, V>) {

    ghost predicate Valid() {
      && (forall i, j :: 0 <= i < j < |order| ==> order[i] != order[j])
      && entries.Keys == set k | k in order
    }

    /** Python's `d[k] = v`: an existing key keeps its place, a new key
        goes last. */
    function Put(k: K, v: V): (r: Dict<K, V>)
      requires Valid()
      ensures r.Valid()
      ensures r.entries == entries[k := v]
      ensures k in entries ==> r.order == order
      ensures k !in entries ==> r.order == order + [k]
    {
      Dict(if k in entries then order else order + [k], entries[k := v])
    }
  }

  /** The empty dict, `{}`. */
  function Empty<K(==, !new), V>(): (r: Dict<K, V>)
    ensures r.Valid() && r.entries == map[]
  {
    Dict([], map[])
  }

  /** The keys of `ks` that are not in `known`, each once, in order of
      first appearance. */
  ghost function Fresh<K>(ks: seq<K>, known: set<K>): seq<K>
    decreases |ks|
  {
    if |ks| == 0 then []
    else if ks[0] in known then Fresh(ks[1..], known)
    else [ks[0]] + Fresh(ks[1..], known + {ks[0]})
  }

  /** `d[k] = e[k]` for each `k` of `ks`, in order. */
  function PutAll<K(==, !new), V>(d: Dict<K, V>, ks: seq<K>, e: map<K, V>): (r: Dict<K, V>)
    requires d.Valid()
    requires forall i :: 0 <= i < |ks| ==> ks[i] in e
    ensures r.Valid()
    ensures forall k :: k in r.entries <==> k in d.entries || k in ks
    ensures forall k :: k in ks ==> r.entries[k] == e[k]
    ensures forall k :: k in d.entries && k !in ks ==> r.entries[k] == d.entries[k]
    decreases |ks|
  {
    if |ks| == 0 then d
    else
      var d' := d.Put(ks[0], e[ks[0]]);
      var r := PutAll(d', ks[1..], e);
      assert forall k :: k in ks <==> k == ks[0] || k in ks[1..];
      r
  }

  /** One step of `Fresh`: listing `k` if it is new, then the rest with
      `k` known, lists the same keys as listing all of `[k] + rest`. */
  lemma FreshStep<K>(o: seq<K>, known: set<K>, k: K, rest: seq<K>)
    ensures (if k in known then o else o + [k]) + Fresh(rest, known + {k}) == o + Fresh([k] + rest, known)
  {
    assert ([k] + rest)[1..] == rest;
    if k in known {
      assert known + {k} == known;
    } else {
      assert (o + [k]) + Fresh(rest, known + {k}) == o + ([k] + Fresh(rest, known + {k}));
    }
  }

  /** Putting a key adds it to the keys. */
  lemma PutKeys<K(!new), V>(d: Dict<K, V>, k: K, v: V)
    requires d.Valid()
    ensures d.Put(k, v).entries.Keys == d.entries.Keys + {k}
  {
  }

  /** Keys new to `d` are appended in the order `ks` first mentions them. */
  lemma {:induction false} PutAllOrder<K(!new), V>(d: Dict<K, V>, ks: seq<K>, e: map<K, V>)
    requires d.Valid()
    requires forall i :: 0 <= i < |ks| ==> ks[i] in e
    ensures PutAll(d, ks, e).order == d.order + Fresh(ks, d.entries.Keys)
    decreases |ks|
  {
    if |ks| > 0 {
      var k := ks[0];
      var d' := d.Put(k, e[k]);
      assert PutAll(d, ks, e).order == PutAll(d', ks[1..], e).order;
      PutAllOrder(d', ks[1..], e);
      PutKeys(d, k, e[k]);
      FreshStep(d.order, d.entries.Keys, k, ks[1..]);
      assert ks == [k] + ks[1..];
    } else {
      assert d.order + [] == d.order;
    }
  }

  /** Python's `d.update(e)`: the right-biased union of the two maps,
      where keys new to `d` are appended in `e`'s order. */
  function Update<K(==, !new), V>(d: Dict<K, V>, e: Dict<K, V>): (r: Dict<K, V>)
    requires d.Valid() && e.Valid()
    ensures r.Valid()
    ensures r.entries == d.entries + e.entries
    ensures r.order == d.order + Fresh(e.order, d.entries.Keys)
  {
    var r := PutAll(d, e.order, e.entries);
    PutAllOrder(d, e.order, e.entries);
    assert r.entries.Keys == (d.entries + e.entries).Keys;
    r
  }
}
