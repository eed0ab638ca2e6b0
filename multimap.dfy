/**
 * A map from each key to a list of values, as the multipolygon keeps its
 * outer polygons and their holes. `PutAll` overwrites the list of a key
 * already present; `AddAll` appends to it.
 */
module MultiMaps {
  import opened Collections

  /** The list stored for `key`, or the empty list when `key` is absent. */
  function ValuesFor<K, V>(m: map<K, seq<V>>, key: K): seq<V> {
    if key in m then m[key] else []
  }

  /** What `AddAll(other)` leaves in a multimap that held `m`. */
  function Accumulated<K, V>(m: map<K, seq<V>>, other: map<K, seq<V>>): (r: map<K, seq<V>>)
    ensures r.Keys == m.Keys + other.Keys
    ensures forall k :: k in m && k in other ==> r[k] == m[k] + other[k]
    ensures forall k :: k in m && k !in other ==> r[k] == m[k]
    ensures forall k :: k !in m && k in other ==> r[k] == other[k]
  {
    map k | k in m.Keys + other.Keys ::
      if k in m && k in other then m[k] + other[k]
      else if k in m then m[k]
      else other[k]
  }

  /** Adding one more list on a new key extends the accumulation by that key. */
  lemma AccumulatedStep<K, V>(m: map<K, seq<V>>, done: map<K, seq<V>>, key: K, values: seq<V>)
    requires key !in done
    ensures Accumulated(m, done)[key := ValuesFor(Accumulated(m, done), key) + values]
         == Accumulated(m, done[key := values])
  {
    var acc := Accumulated(m, done);
    if key !in m {
      assert ValuesFor(acc, key) + values == values;
    }
  }

  /** The lists of the keys `keys`, one after the other. */
  ghost function Flatten<K, V>(m: map<K, seq<V>>, keys: seq<K>): seq<V> {
    if keys == [] then [] else Flatten(m, keys[..|keys| - 1]) + ValuesFor(m, keys[|keys| - 1])
  }

  lemma {:induction false} FlattenMembers<K, V>(m: map<K, seq<V>>, keys: seq<K>, v: V)
    ensures v in Flatten(m, keys) <==> exists k :: k in keys && k in m && v in m[k]
    decreases |keys|
  {
    if keys != [] {
      var n := |keys| - 1;
      FlattenMembers(m, keys[..n], v);
      assert forall k :: k in keys <==> k in keys[..n] || k == keys[n] by {
        assert keys == keys[..n] + [keys[n]];
      }
    }
  }

  /**
   * Every value of every key, key after key, in the (unspecified) order in
   * which the map enumerates its keys.
   */
  ghost function AllValues<K, V>(m: map<K, seq<V>>): seq<V> {
    Flatten(m, Enumerate(m.Keys))
  }

  /** A value occurs in `AllValues(m)` exactly when some key lists it. */
  lemma AllValuesMembers<K, V>(m: map<K, seq<V>>, v: V)
    ensures v in AllValues(m) <==> exists k :: k in m && v in m[k]
  {
    var keys := Enumerate(m.Keys);
    FlattenMembers(m, keys, v);
    assert forall k :: k in keys <==> k in Elements(keys);
  }

  class MultiMap<K(==), V> {
    var entries: map<K, seq<V>>

    constructor ()
      ensures entries == map[]
    {
      entries := map[];
    }

    /** Stores `values` as the whole list of `key`, replacing any list it had. */
    method Put(key: K, values: seq<V>)
      modifies this
      ensures entries == old(entries)[key := values]
    {
      entries := entries[key := values];
    }

    /** Appends `values` to the list of `key`, starting a list when `key` is new. */
    method Add(key: K, values: seq<V>)
      modifies this
      ensures entries == old(entries)[key := ValuesFor(old(entries), key) + values]
    {
      if key in entries {
        entries := entries[key := entries[key] + values];
      } else {
        assert ValuesFor(entries, key) + values == values;
        entries := entries[key := values];
      }
    }

    /** Puts every entry of `other`, key by key: on a shared key `other`'s list wins. */
    method PutAll(other: map<K, seq<V>>)
      modifies this
      ensures entries == old(entries) + other
    {
      var rest := other.Keys;
      while rest != {}
        invariant rest <= other.Keys
        invariant entries.Keys == old(entries).Keys + (other.Keys - rest)
        invariant forall k :: k in entries ==>
          entries[k] == if k in other && k !in rest then other[k] else old(entries)[k]
        decreases rest
      {
        var key :| key in rest;
        Put(key, other[key]);
        rest := rest - {key};
      }
    }

    /** Adds every entry of `other`, key by key: on a shared key the lists are concatenated. */
    method AddAll(other: map<K, seq<V>>)
      modifies this
      ensures entries == Accumulated(old(entries), other)
    {
      var rest := other.Keys;
      while rest != {}
        invariant rest <= other.Keys
        invariant entries == Accumulated(old(entries), other - rest)
        decreases rest
      {
        var key :| key in rest;
        AccumulatedStep(old(entries), other - rest, key, other[key]);
        assert (other - rest)[key := other[key]] == other - (rest - {key});
        Add(key, other[key]);
        rest := rest - {key};
      }
      assert other - {} == other;
    }
  }
}
