/** Notions about sequences and maps that several components share. */
module Collections {
  function Elements<T>(s: seq<T>): set<T> { set x | x in s }

  predicate Distinct<T(==)>(s: seq<T>) { forall i, j | 0 <= i < j < |s| :: s[i] != s[j] }

  /** A listing of the keys of a dictionary. */
  predicate ListsKeys<K, V>(listing: seq<K>, m: map<K, V>) { Distinct(listing) && Elements(listing) == m.Keys }

  lemma ValuesStored<K, V>(m: map<K, V>, k: K, v: V)
    requires k !in m
    ensures m[k := v].Values == m.Values + {v}
  {
    var n := m[k := v];
    assert n[k] == v;
    assert forall j <- m :: n[j] == m[j];
  }
}
