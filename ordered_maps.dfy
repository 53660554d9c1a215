/** A JavaScript `Map`: a finite map whose iteration order is the order in
    which keys were first inserted. `set` on a present key keeps its place,
    `delete` drops it, `clear` empties the map. */
module OrderedMaps {
  import opened Wrappers
  import opened Seqs

  datatype OMap<K(==), V> = OMap(keys: seq<K>, items: map<K, V>) {

    /** `keys` lists every key of `items` exactly once, in insertion order. */
    ghost predicate Valid()
    {
      && NoDup(keys)
      && (forall k :: k in keys ==> k in items)
      && (forall k :: k in items ==> k in keys)
    }

    /** `Map.prototype.get`. */
    function Get(k: K): (r: Option<V>)
      ensures r.None? <==> k !in items
      ensures r.Some? ==> r.value == items[k]
    {
      if k in items then Some(items[k]) else None
    }

    /** `Map.prototype.set`: a new key goes to the end of the order. */
    function Set(k: K, v: V): (r: OMap<K, V>)
      requires Valid()
      ensures r.Valid()
      ensures r.items == items[k := v]
      ensures k in items ==> r.keys == keys
      ensures k !in items ==> r.keys == keys + [k]
    {
      if k in items then OMap(keys, items[k := v])
      else
        var r := OMap(keys + [k], items[k := v]);
        assert NoDup(r.keys) by {
          forall i, j | 0 <= i < j < |r.keys| ensures r.keys[i] != r.keys[j] {
            if j == |keys| {
              assert r.keys[i] == keys[i];
            }
          }
        }
        r
    }

    /** `Map.prototype.delete`: a no-op on an absent key. */
    function Delete(k: K): (r: OMap<K, V>)
      requires Valid()
      ensures r.Valid()
      ensures r.items == items - {k}
      ensures r.keys == Remove(keys, k)
    {
      RemoveKeepsNoDup(keys, k);
      OMap(Remove(keys, k), items - {k})
    }
  }

  /** `new Map()` and the state after `Map.prototype.clear`. */
  function Empty<K(==), V>(): (r: OMap<K, V>)
    ensures r.Valid() && r.keys == [] && r.items == map[]
  {
    OMap([], map[])
  }
}
