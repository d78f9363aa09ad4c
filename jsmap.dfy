/** A JavaScript `Map<number, V>`: a dictionary that remembers the order in
    which its keys were first inserted and yields its values in that order. */
module JsMap {
  import opened Wrappers

  ghost predicate Distinct(keys: seq<int>)
  {
    forall i, j :: 0 <= i < j < |keys| ==> keys[i] != keys[j]
  }

  /** `keys` without `k`, the others in their order. */
  function Without(keys: seq<int>, k: int): (r: seq<int>)
    ensures forall x :: x in r <==> x in keys && x != k
    ensures Distinct(keys) ==> Distinct(r)
  {
    if keys == [] then []
    else
      var rest := Without(keys[1..], k);
      assert Distinct(keys) ==> Distinct(keys[1..]) && keys[0] !in keys[1..];
      if keys[0] == k then rest else [keys[0]] + rest
  }

  datatype OrderedMap<V> = OrderedMap(keys: seq<int>, entries: map<int, V>)
  {
    /** The insertion order lists every key once and nothing else. */
    ghost predicate Valid()
    {
      Distinct(keys) && forall k :: k in keys <==> k in entries
    }

    /** `map.get(k)`: the stored value, found exactly for the keys in the
        iteration order. */
    function Get(k: int): (r: Option<V>)
      ensures r.Some? ==> k in entries && r.value == entries[k]
      ensures Valid() ==> (r.Some? <==> k in keys)
    {
      if k in entries then Some(entries[k]) else None
    }

    /** `map.set(k, v)`: a new key goes last, an existing key keeps its place. */
    function Set(k: int, v: V): (m: OrderedMap<V>)
      requires Valid()
      ensures m.Valid()
      ensures m.entries == entries[k := v]
      ensures k in entries ==> m.keys == keys
      ensures k !in entries ==> m.keys == keys + [k]
    {
      if k in entries then OrderedMap(keys, entries[k := v])
      else OrderedMap(keys + [k], entries[k := v])
    }

    /** `map.delete(k)`. */
    function Delete(k: int): (m: OrderedMap<V>)
      requires Valid()
      ensures m.Valid()
      ensures m.entries == entries - {k}
      ensures m.keys == Without(keys, k)
    {
      OrderedMap(Without(keys, k), entries - {k})
    }

    /** `Array.from(map.values())`. */
    function Values(): seq<V>
      requires Valid()
    {
      assert forall k :: k in keys ==> k in entries;
      assert forall i :: 0 <= i < |keys| ==> keys[i] in entries;
      seq(|keys|, i requires 0 <= i < |keys| && keys[i] in entries => entries[keys[i]])
    }

    /** `map.values()` yields one value per key, and every stored value is
        among them. */
    lemma ValuesListEveryEntry()
      requires Valid()
      ensures |Values()| == |keys|
      ensures forall k :: k in entries ==> entries[k] in Values()
    {
      forall k | k in entries ensures entries[k] in Values() {
        var i :| 0 <= i < |keys| && keys[i] == k;
        assert Values()[i] == entries[k];
      }
    }
  }

  /** `new Map()`. */
  function Empty<V>(): (m: OrderedMap<V>)
    ensures m.Valid() && m.Values() == []
    ensures forall k :: m.Get(k) == None
  {
    OrderedMap([], map[])
  }
}
