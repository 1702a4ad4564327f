/**
 * An insertion-ordered map, as a JavaScript `Map` is: its entries are visited
 * in the order their keys were first set, and setting a key that is already
 * present replaces its value without moving it.
 */
module OrderedMaps {

  datatype OrderedMap<K(==, !new), V> = OrderedMap(keys: seq<K>, values: map<K, V>) {

    /** Each key is listed once, and the listed keys are exactly the mapped ones. */
    ghost predicate Valid() {
      && (forall i, j :: 0 <= i < j < |keys| ==> keys[i] != keys[j])
      && (forall k :: k in values <==> k in keys)
    }

    /** The value at `k`, or `default` when `k` is absent (`map.get(k) || default` for counts). */
    function GetOr(k: K, default: V): (v: V)
      ensures k in values ==> v == values[k]
      ensures k !in values ==> v == default
    {
      if k in values then values[k] else default
    }

    /** `map.set(k, v)`. */
    function Set(k: K, v: V): (r: OrderedMap<K, V>)
      requires Valid()
      ensures r.Valid()
      ensures r.values.Keys == values.Keys + {k} && r.values[k] == v
      ensures forall k' :: k' in values && k' != k ==> r.values[k'] == values[k']
      ensures k in values ==> r.keys == keys
      ensures k !in values ==> r.keys == keys + [k]
    {
      if k in values then OrderedMap(keys, values[k := v])
      else OrderedMap(keys + [k], values[k := v])
    }
  }

  /** Reading a key just set gives the value set; reading any other key is unaffected. */
  lemma GetOrSet<K(!new), V>(m: OrderedMap<K, V>, k: K, v: V, k': K, default: V)
    requires m.Valid()
    ensures m.Set(k, v).GetOr(k, default) == v
    ensures k' != k ==> m.Set(k, v).GetOr(k', default) == m.GetOr(k', default)
  {
  }

  /** `new Map()`. */
  function Empty<K(==, !new), V>(): (m: OrderedMap<K, V>)
    ensures m.Valid() && |m.keys| == 0 && m.values == map[]
  {
    OrderedMap([], map[])
  }
}
