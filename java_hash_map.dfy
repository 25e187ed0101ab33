/**
 * The part of `java.util.HashMap` the demos use, as a class whose one field is the key/value
 * table. A stored value may be null, written `None`: a key mapped to null is present, which
 * `containsKey`, `getOrDefault`, `replace` and `remove(key, value)` can tell apart from an absent
 * key, while `get` cannot.
 */
module JavaHashMap {
  import opened Wrappers

  class HashMap<K(==), V(==)> {
    /** The entries; iteration order is not modelled. */
    var entries: map<K, Option<V>>

    /** `new HashMap<>()`: an empty map. */
    constructor ()
      ensures entries == map[]
    {
      entries := map[];
    }

    /** `containsKey(key)`. */
    predicate ContainsKey(key: K)
      reads this
    {
      key in entries
    }

    /** `get(key)`: null both for an absent key and for a key mapped to null. */
    function Get(key: K): (v: Option<V>)
      reads this
      ensures v.Some? ==> ContainsKey(key) && entries[key] == v
      ensures !ContainsKey(key) ==> v.None?
    {
      if key in entries then entries[key] else None
    }

    /**
     * `getOrDefault(key, defaultValue)`: the default only when the key is absent; a key mapped to
     * null gives null, not the default.
     */
    function GetOrDefault(key: K, defaultValue: Option<V>): (v: Option<V>)
      reads this
      ensures !ContainsKey(key) ==> v == defaultValue
      ensures ContainsKey(key) ==> v == Get(key)
    {
      if key in entries then entries[key] else defaultValue
    }

    /** `put(key, value)`: stores the value, returns what `get` gave before, and touches no other key. */
    method Put(key: K, value: Option<V>) returns (previous: Option<V>)
      modifies this
      ensures entries == old(entries)[key := value]
      ensures previous == old(Get(key))
    {
      previous := Get(key);
      entries := entries[key := value];
    }

    /**
     * `putIfAbsent(key, value)`: stores the value only when `get` gives null, so an absent key or
     * one mapped to null takes it and a non-null value is never overwritten.
     */
    method PutIfAbsent(key: K, value: Option<V>) returns (previous: Option<V>)
      modifies this
      ensures previous == old(Get(key))
      ensures previous.None? ==> entries == old(entries)[key := value]
      ensures previous.Some? ==> entries == old(entries)
    {
      previous := Get(key);
      if previous.None? {
        entries := entries[key := value];
      }
    }

    /** `replace(key, value)`: stores the value only when the key is present (even if mapped to null). */
    method Replace(key: K, value: Option<V>) returns (previous: Option<V>)
      modifies this
      ensures previous == old(Get(key))
      ensures old(ContainsKey(key)) ==> entries == old(entries)[key := value]
      ensures !old(ContainsKey(key)) ==> entries == old(entries)
    {
      previous := Get(key);
      if key in entries {
        entries := entries[key := value];
      }
    }

    /**
     * `replace(key, oldValue, newValue)`: stores the new value only when the key is present and
     * its value equals `oldValue` (null matching null), and says whether it did.
     */
    method ReplaceIfEquals(key: K, oldValue: Option<V>, newValue: Option<V>) returns (replaced: bool)
      modifies this
      ensures replaced <==> old(ContainsKey(key)) && old(entries)[key] == oldValue
      ensures replaced ==> entries == old(entries)[key := newValue]
      ensures !replaced ==> entries == old(entries)
    {
      replaced := key in entries && entries[key] == oldValue;
      if replaced {
        entries := entries[key := newValue];
      }
    }

    /**
     * `remove(key, value)`: removes the entry only when the key is present and its value equals
     * `value` (null matching null), and says whether it did.
     */
    method RemoveIfEquals(key: K, value: Option<V>) returns (removed: bool)
      modifies this
      ensures removed <==> old(ContainsKey(key)) && old(entries)[key] == value
      ensures removed ==> entries == old(entries) - {key}
      ensures !removed ==> entries == old(entries)
    {
      removed := key in entries && entries[key] == value;
      if removed {
        entries := entries - {key};
      }
    }

    /**
     * `replaceAll(remap)`: visits every entry once and stores `remap(key, value)` in it; the
     * keys stay the same. The visiting order is left open.
     */
    method ReplaceAll(remap: (K, Option<V>) -> Option<V>)
      modifies this
      ensures entries.Keys == old(entries).Keys
      ensures forall k :: k in entries ==> entries[k] == remap(k, old(entries)[k])
    {
      var pending := entries.Keys;
      while pending != {}
        invariant pending <= entries.Keys
        invariant entries.Keys == old(entries).Keys
        invariant forall k :: k in entries ==>
                    entries[k] == if k in pending then old(entries)[k] else remap(k, old(entries)[k])
        decreases pending
      {
        var k :| k in pending;
        entries := entries[k := remap(k, entries[k])];
        pending := pending - {k};
      }
    }
  }

  /**
   * A key mapped to null is present: `containsKey` says so and `getOrDefault` gives null rather
   * than the default, while `get` cannot tell it from an absent key.
   */
  lemma NullValueIsPresent<K, V>(m: HashMap<K, V>, key: K, defaultValue: Option<V>)
    requires key in m.entries && m.entries[key].None?
    ensures m.ContainsKey(key)
    ensures m.GetOrDefault(key, defaultValue).None?
    ensures m.Get(key).None?
  {
  }
}
