/**
 Python's `dict`: a finite map that remembers the order in which its keys were
 first inserted. Assigning to a key that is already present changes its value
 and keeps its position; a new key goes to the end.
 */
module Dicts {

  /** Every element of `s` occurs once. */
  predicate Distinct<T(==)>(s: seq<T>) {
    forall i, j | 0 <= i < j < |s| :: s[i] != s[j]
  }

  datatype DictRep<K, V> = DictRep(keys: seq<K>, items: map<K, V>) {
    /** `keys` lists the keys of `items`, each once. */
    predicate Valid() {
      && Distinct(keys)
      && (forall k | k in items :: k in keys)
      && (forall i | 0 <= i < |keys| :: keys[i] in items)
    }
  }

  type Dict<K(==), V> = d: DictRep<K, V> | d.Valid() witness DictRep([], map[])

  function Empty<K(==), V>(): (d: Dict<K, V>)
    ensures d.keys == [] && d.items == map[]
  {
    DictRep([], map[])
  }

  /** `d[k] = v` */
  function Set<K(==), V>(d: Dict<K, V>, k: K, v: V): (r: Dict<K, V>)
    ensures r.items == d.items[k := v]
    ensures k in d.items ==> r.keys == d.keys
    ensures k !in d.items ==> r.keys == d.keys + [k]
  {
    if k in d.items then DictRep(d.keys, d.items[k := v])
    else DictRep(d.keys + [k], d.items[k := v])
  }

  /** `list(d.values())`: the values in key order. */
  function Values<K(==), V>(d: Dict<K, V>): (vs: seq<V>)
    ensures |vs| == |d.keys|
    ensures forall i | 0 <= i < |vs| :: vs[i] == d.items[d.keys[i]]
  {
    seq(|d.keys|, i requires 0 <= i < |d.keys| => d.items[d.keys[i]])
  }

  /** A dictionary with the given keys, in the given order, and values computed from them. */
  function FromKeys<K(==), V>(ks: seq<K>, f: K --> V): (d: Dict<K, V>)
    requires Distinct(ks)
    requires forall i | 0 <= i < |ks| :: f.requires(ks[i])
    ensures d.keys == ks
    ensures forall k | k in d.items :: f.requires(k) && d.items[k] == f(k)
  {
    DictRep(ks, map k | k in ks :: f(k))
  }

  /**
   How `d[k] = v` shows in `list(d.values())`: an existing key's value is
   replaced where it stands, and a new key's value is appended.
   */
  lemma ValuesOfSet<K, V>(d: Dict<K, V>, k: K, v: V)
    ensures k in d.items ==> |Values(Set(d, k, v))| == |Values(d)|
    ensures k in d.items ==> forall i | 0 <= i < |Values(d)| ::
      Values(Set(d, k, v))[i] == if d.keys[i] == k then v else Values(d)[i]
    ensures k !in d.items ==> Values(Set(d, k, v)) == Values(d) + [v]
  {
  }
}
