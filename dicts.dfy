/**
 * A JavaScript object used as a dictionary with string keys: `Object.keys`
 * lists the keys in the order they were first assigned, and assigning to a
 * key that is already present replaces its value and keeps its position.
 * (None of the keys the generator uses looks like an array index, so the
 * integer-keys-first rule of JavaScript property order never applies.)
 */
module Dicts {
  import opened Wrappers
  import opened Seqs

  datatype Dict<V> = Dict(keys: seq<string>, vals: map<string, V>) {
    /** Every key is listed once, and exactly the keys with a value are listed. */
    ghost predicate Valid() {
      NoDup(keys) && forall k :: k in vals <==> k in keys
    }

    /** `obj[k]`, with `undefined` as `None`. */
    function Get(k: string): (r: Option<V>) {
      if k in vals then Some(vals[k]) else None
    }

    /** `obj[k] = v`. */
    function Put(k: string, v: V): (r: Dict<V>)
      ensures Valid() ==> r.Valid()
      ensures r.Get(k) == Some(v)
      ensures forall k' :: k' != k ==> r.Get(k') == Get(k')
      ensures Valid() ==> r.keys == AddNew(keys, k)
    {
      Dict(if k in vals then keys else keys + [k], vals[k := v])
    }
  }

  /** `{}`. */
  function Empty<V>(): (d: Dict<V>)
    ensures d.Valid() && d.keys == []
    ensures forall k :: d.Get(k) == None
  {
    Dict([], map[])
  }

  /** Assigning to a key that is already present keeps every key where it was. */
  lemma PutKeepsPosition<V>(d: Dict<V>, i: nat, v: V)
    requires d.Valid() && i < |d.keys|
    ensures d.Put(d.keys[i], v).keys == d.keys
  {
  }

  /** Assigning twice to the same key is assigning the second value once. */
  lemma PutTwice<V>(d: Dict<V>, k: string, a: V, b: V)
    ensures d.Put(k, a).Put(k, b) == d.Put(k, b)
  {
    assert d.vals[k := a][k := b] == d.vals[k := b];
  }
}
