/**
 Model of sync.go: a map guarded by a read-write mutex. The mutex only
 serialises concurrent calls; each call is modelled as one atomic step on the
 map it guards.
 */
module Sync {

  class SyncedMap<K(==), V> {
    var m: map<K, V>
    /** Go's zero value of V, which Get returns for a missing key. */
    const zero: V

    /** NewSyncedMap: an empty map. */
    constructor (zero: V)
      ensures m == map[] && this.zero == zero
    {
      m := map[];
      this.zero := zero;
    }

    /** Removes the entry of `key`, if there is one; every other entry stays. */
    method Delete(key: K)
      modifies this
      ensures m == old(m) - {key}
      ensures key !in m
    {
      m := m - {key};
    }

    /** The value stored for `key` and true, or the zero value and false when there is none. */
    method Get(key: K) returns (value: V, ok: bool)
      ensures ok <==> key in m
      ensures value == if key in m then m[key] else zero
    {
      ok := key in m;
      if ok {
        value := m[key];
      } else {
        value := zero;
      }
    }

    /** Stores `value` for `key`, replacing an earlier value; every other entry stays. */
    method Set(key: K, value: V)
      modifies this
      ensures m == old(m)[key := value]
      ensures key in m && m[key] == value
      ensures forall k :: k in old(m) && k != key ==> k in m && m[k] == old(m)[k]
    {
      m := m[key := value];
    }
  }
}
