/**
 The orders in which a map may be walked, and maps rebuilt from a walk.
 */
module MapOrder {
  /** The order visits each key of the map once. */
  ghost predicate Enumerates<K(!new), V>(order: seq<K>, m: map<K, V>)
  {
    (forall k :: k in order <==> k in m) && |order| == |m|
    && (forall i, j :: 0 <= i < j < |order| ==> order[i] != order[j])
  }

  /** The part of the map that has been visited. */
  ghost function Restrict<K(!new), V>(order: seq<K>, m: map<K, V>): (r: map<K, V>)
  {
    map k | k in m && k in order :: m[k]
  }

  lemma RestrictOneMore<K(!new), V>(sofar: seq<K>, k: K, m: map<K, V>)
    requires k in m
    ensures Restrict(sofar, m)[k := m[k]] == Restrict(sofar + [k], m)
  {
  }

  lemma WholeMap<K(!new), V>(order: seq<K>, m: map<K, V>)
    requires Enumerates(order, m)
    ensures Restrict([], m) == map[] && Restrict(order, m) == m
  {
  }
}
