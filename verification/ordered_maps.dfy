/** A PHP array with string keys: a map that remembers insertion order.
    Assigning to an existing key keeps the key's position. */
module OrderedMaps {

  datatype OrderedMap<V> = OrderedMap(keys: seq<string>, entries: map<string, V>) {

    /** The order lists every key exactly once. */
    ghost predicate Valid() {
      && (forall i, j | 0 <= i < j < |keys| :: keys[i] != keys[j])
      && (forall k :: k in keys <==> k in entries)
    }
  }

  function Empty<V>(): (r: OrderedMap<V>)
    ensures r.Valid()
    ensures r.keys == [] && r.entries == map[]
  {
    OrderedMap([], map[])
  }

  /** `$array[$k] = $v`: an existing key is overwritten in place, a new key is appended. */
  function Put<V>(m: OrderedMap<V>, k: string, v: V): (r: OrderedMap<V>)
    requires m.Valid()
    ensures r.Valid()
    ensures r.entries == m.entries[k := v]
    ensures k in m.entries ==> r.keys == m.keys
    ensures k !in m.entries ==> r.keys == m.keys + [k]
  {
    if k in m.entries then OrderedMap(m.keys, m.entries[k := v])
    else OrderedMap(m.keys + [k], m.entries[k := v])
  }

  /** A second write to the same key replaces the first. */
  lemma Overwrite<K, V>(m: map<K, V>, k: K, a: V, b: V)
    ensures m[k := a][k := b] == m[k := b]
  {
  }

  /** A write followed by a merge is a merge of the write and the rest. */
  lemma UpdateThenUnion<K, V>(m: map<K, V>, k: K, v: V, r: map<K, V>)
    ensures m[k := v] + r == m + (map[k := v] + r)
  {
  }

  /** The stored values in insertion order. */
  function InOrder<V>(m: OrderedMap<V>): (r: seq<V>)
    requires m.Valid()
    ensures |r| == |m.keys|
    ensures forall i | 0 <= i < |r| :: m.keys[i] in m.entries && r[i] == m.entries[m.keys[i]]
  {
    seq(|m.keys|, i requires 0 <= i < |m.keys| => m.entries[m.keys[i]])
  }

  /** The number of entries equals the length of the order (PHP's `count`). */
  lemma {:induction false} CountMatchesOrder<V>(m: OrderedMap<V>)
    requires m.Valid()
    ensures |m.entries| == |m.keys|
    decreases |m.keys|
  {
    if |m.keys| == 0 {
      assert m.entries.Keys == {};
    } else {
      var n := |m.keys| - 1;
      var last := m.keys[n];
      var rest := OrderedMap(m.keys[..n], m.entries - {last});
      forall k | k in rest.keys
        ensures k in rest.entries
      {
        var i :| 0 <= i < n && m.keys[..n][i] == k;
        assert m.keys[i] == k && m.keys[i] != m.keys[n];
      }
      forall k | k in rest.entries
        ensures k in rest.keys
      {
        assert k in m.keys;
        var j :| 0 <= j < |m.keys| && m.keys[j] == k;
        assert j < n && m.keys[..n][j] == k;
      }
      CountMatchesOrder(rest);
      assert m.entries.Keys == rest.entries.Keys + {last};
    }
  }
}
