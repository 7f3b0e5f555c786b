/**
 * aMap<Key, T>: a thin wrapper over an ordered std::map with a
 * lookup-with-default. The wrapped map becomes a Dafny `map` field; only the
 * keys and their values are modelled, not the iteration order.
 */
module AMaps {
  import opened UInt16

  /** value(key, defaultValue) on the map's contents. */
  function ValueOr<K, V>(m: map<K, V>, k: K, d: V): V {
    if k in m then m[k] else d
  }

  /** After insert(k, v), value(k) is v whatever was there before, and every other key reads as it did. */
  lemma InsertedValue<K, V>(m: map<K, V>, k: K, v: V, d: V)
    ensures ValueOr(m[k := v], k, d) == v
    ensures forall k' :: k' != k ==> ValueOr(m[k := v], k', d) == ValueOr(m, k', d)
  {
  }

  /** After remove(k), k is absent and every other key reads as it did. */
  lemma RemovedKey<K, V>(m: map<K, V>, k: K, d: V)
    ensures k !in m - {k} && ValueOr(m - {k}, k, d) == d
    ensures forall k' :: k' != k ==> (k' in m - {k} <==> k' in m) && ValueOr(m - {k}, k', d) == ValueOr(m, k', d)
  {
  }

  /** size() counts distinct keys: re-inserting a key keeps it, a new key adds one. */
  lemma InsertSize<K, V>(m: map<K, V>, k: K, v: V)
    ensures k in m ==> |m[k := v]| == |m|
    ensures k !in m ==> |m[k := v]| == |m| + 1
  {
    if k in m {
      assert m[k := v].Keys == m.Keys;
    } else {
      assert m[k := v].Keys == m.Keys + {k};
    }
  }

  /** remove(k) drops one key when k is present and none otherwise. */
  lemma RemoveSize<K, V>(m: map<K, V>, k: K)
    ensures k in m ==> |m - {k}| == |m| - 1
    ensures k !in m ==> |m - {k}| == |m|
  {
    if k in m {
      assert (m - {k}).Keys == m.Keys - {k};
    } else {
      assert m - {k} == m;
    }
  }

  class AMap<K(==), V> {
    /** the wrapped std::map */
    var data: map<K, V>

    /** An empty map. */
    constructor ()
      ensures data == map[]
    {
      data := map[];
    }

    /** insert(key, value): `data[key] = value`, overwriting any earlier value. */
    method Insert(k: K, v: V)
      modifies this
      ensures data == old(data)[k := v]
    {
      data := data[k := v];
    }

    /** contains(key). */
    function Contains(k: K): (r: bool)
      reads this
      ensures r <==> k in data
    {
      k in data
    }

    /** value(key, defaultValue). */
    function Value(k: K, d: V): (r: V)
      reads this
      ensures k in data ==> r == data[k]
      ensures k !in data ==> r == d
    {
      ValueOr(data, k, d)
    }

    /** size(): the number of keys, returned as a uint16_t. */
    function Size(): (r: nat)
      reads this
      ensures |data| < U16 ==> r == |data|
    {
      Low16(|data|)
    }

    /** clear(). */
    method Clear()
      modifies this
      ensures data == map[] && Size() == 0
    {
      data := map[];
    }

    /** remove(key): `data.erase(key)`. */
    method Remove(k: K)
      modifies this
      ensures data == old(data) - {k}
      ensures !Contains(k)
    {
      data := data - {k};
    }
  }
}
