/**
  The accumulator loops the ledger and the peer layer run over their maps:
  collect the values that pass a filter, or count them. Map iteration has
  no fixed order, so the next key is picked arbitrarily.
 */
module Collections {

  /** The keys whose values pass the filter. */
  function KeysWhere<K, V>(m: map<K, V>, keep: V -> bool): set<K> {
    set k | k in m && keep(m[k])
  }

  /**
    Every selected value passes the filter and comes from the map; every
    passing entry is selected exactly once. `keys[i]` is the key `r[i]` was
    read under: the keys are distinct and are exactly the passing ones.
   */
  method Select<K, V(==)>(m: map<K, V>, keep: V -> bool) returns (r: seq<V>, ghost keys: seq<K>)
    ensures |keys| == |r|
    ensures forall i :: 0 <= i < |r| ==> keys[i] in m && r[i] == m[keys[i]] && keep(r[i])
    ensures forall i, j :: 0 <= i < j < |keys| ==> keys[i] != keys[j]
    ensures forall k :: k in m && keep(m[k]) ==> k in keys
    ensures forall v :: v in r ==> v in m.Values && keep(v)
    ensures forall k :: k in m && keep(m[k]) ==> m[k] in r
    ensures |r| == |KeysWhere(m, keep)|
  {
    r, keys := [], [];
    var todo := m.Keys;
    while todo != {}
      invariant todo <= m.Keys
      invariant |keys| == |r|
      invariant forall i :: 0 <= i < |r| ==> keys[i] in m && keys[i] !in todo && r[i] == m[keys[i]] && keep(r[i])
      invariant forall i, j :: 0 <= i < j < |keys| ==> keys[i] != keys[j]
      invariant forall k :: k in m && k !in todo && keep(m[k]) ==> k in keys
      invariant |r| == |set k | k in m && k !in todo && keep(m[k])|
      decreases todo
    {
      var k :| k in todo;
      ghost var before := set j | j in m && j !in todo && keep(m[j]);
      todo := todo - {k};
      if keep(m[k]) {
        r, keys := r + [m[k]], keys + [k];
        assert (set j | j in m && j !in todo && keep(m[j])) == before + {k};
      } else {
        assert (set j | j in m && j !in todo && keep(m[j])) == before;
      }
    }
    forall v | v in r
      ensures v in m.Values && keep(v)
    {
      var i :| 0 <= i < |r| && r[i] == v;
    }
    forall k | k in m && keep(m[k])
      ensures m[k] in r
    {
      var i :| 0 <= i < |keys| && keys[i] == k;
    }
    assert (set k | k in m && k !in todo && keep(m[k])) == KeysWhere(m, keep);
  }

  /** The number of entries that pass the filter. */
  method CountWhere<K, V>(m: map<K, V>, keep: V -> bool) returns (n: nat)
    ensures n == |KeysWhere(m, keep)|
  {
    n := 0;
    var todo := m.Keys;
    while todo != {}
      invariant todo <= m.Keys
      invariant n == |set k | k in m && k !in todo && keep(m[k])|
      decreases todo
    {
      var k :| k in todo;
      ghost var before := set j | j in m && j !in todo && keep(m[j]);
      todo := todo - {k};
      if keep(m[k]) {
        n := n + 1;
        assert (set j | j in m && j !in todo && keep(m[j])) == before + {k};
      } else {
        assert (set j | j in m && j !in todo && keep(m[j])) == before;
      }
    }
    assert (set k | k in m && k !in todo && keep(m[k])) == KeysWhere(m, keep);
  }
}
