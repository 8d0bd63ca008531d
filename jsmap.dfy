/**
 * The part of the JavaScript `Map` that the upload store relies on.
 *
 * A `Map` is a mutable object: a dictionary that also remembers the order in
 * which its keys were first inserted (its iteration order). `set` on a key that
 * is already present replaces the value and keeps the key where it was; `set`
 * on a new key appends it. `new Map(other)` builds a separate object with the
 * same entries in the same order.
 */
module JsMaps {

  /** No key is listed twice. */
  ghost predicate NoDuplicates<K>(keys: seq<K>)
  {
    forall i, j :: 0 <= i < j < |keys| ==> keys[i] != keys[j]
  }

  class JsMap<K(==, !new), V> {
    /** The keys in iteration (first insertion) order. */
    var keys: seq<K>
    /** The key/value association. */
    var entries: map<K, V>

    /** The keys listed are exactly the keys mapped, each listed once. */
    ghost predicate Valid()
      reads this
    {
      && NoDuplicates(keys)
      && forall k :: k in entries <==> k in keys
    }

    /** `new Map()`: an empty map. */
    constructor ()
      ensures Valid()
      ensures keys == [] && entries == map[]
    {
      keys := [];
      entries := map[];
    }

    /** `new Map(source)`: a separate map holding the same entries in the same order. */
    constructor Copy(source: JsMap<K, V>)
      requires source.Valid()
      ensures Valid()
      ensures keys == source.keys && entries == source.entries
    {
      keys := source.keys;
      entries := source.entries;
    }

    /** `map.set(k, v)`: binds `k` to `v`; a new key goes to the end of the order. */
    method Set(k: K, v: V)
      requires Valid()
      modifies this
      ensures Valid()
      ensures entries == old(entries)[k := v]
      ensures keys == if k in old(entries) then old(keys) else old(keys) + [k]
    {
      if k !in entries {
        keys := keys + [k];
      }
      entries := entries[k := v];
    }
  }
}
