/** The cache as its callers see it while the backend is healthy: keys to values that expire. */
module TtlCache {
  import opened Wrappers

  datatype Entry<V> = Entry(value: V, expires: Option<real>)

  type Store<V> = map<string, Entry<V>>

  /** An entry is gone only after its expiry time. */
  predicate Live<V>(e: Entry<V>, now: real) {
    e.expires.Some? ==> now <= e.expires.value
  }

  function Lookup<V>(s: Store<V>, key: string, now: real): Option<V> {
    if key in s && Live(s[key], now) then Some(s[key].value) else None
  }

  /** A time to live of zero stores the value without an expiry. */
  function Put<V>(s: Store<V>, key: string, value: V, ttl: nat, now: real): Store<V> {
    s[key := Entry(value, if ttl == 0 then None else Some(now + ttl as real))]
  }

  function Remove<V>(s: Store<V>, keys: set<string>): Store<V> {
    map k | k in s && k !in keys :: s[k]
  }

  /** The live keys that a pattern, given as a predicate, selects. */
  function LiveKeys<V>(s: Store<V>, selects: string -> bool, now: real): set<string> {
    set k | k in s && Live(s[k], now) && selects(k)
  }

  class AsyncCache<V> {
    var store: Store<V>

    constructor ()
      ensures store == map[]
    {
      store := map[];
    }

    method Get(key: string, now: real) returns (value: Option<V>)
      ensures value == Lookup(store, key, now)
      ensures value.Some? <==> key in store && (store[key].expires.Some? ==> now <= store[key].expires.value)
      ensures value.Some? ==> value.value == store[key].value
    {
      value := if key in store && Live(store[key], now) then Some(store[key].value) else None;
    }

    method Set(key: string, value: V, ttl: nat, now: real) returns (done: bool)
      modifies this
      ensures done && store == Put(old(store), key, value, ttl, now)
      ensures forall k, t: real ::
        Lookup(store, k, t) ==
        if k != key then Lookup(old(store), k, t)
        else if ttl == 0 || t <= now + ttl as real then Some(value) else None
    {
      store := store[key := Entry(value, if ttl == 0 then None else Some(now + ttl as real))];
      done := true;
    }

    method Delete(key: string, now: real) returns (deleted: bool)
      modifies this
      ensures deleted == Lookup(old(store), key, now).Some?
      ensures store == Remove(old(store), {key})
      ensures forall k, t: real :: Lookup(store, k, t) == if k == key then None else Lookup(old(store), k, t)
    {
      deleted := key in store && Live(store[key], now);
      store := map k | k in store && k != key :: store[k];
    }

    method GetMany(keys: seq<string>, now: real) returns (results: map<string, V>)
      ensures forall k :: k in results <==> k in keys && Lookup(store, k, now).Some?
      ensures forall k :: k in results ==> Some(results[k]) == Lookup(store, k, now)
    {
      results := map[];
      for i := 0 to |keys|
        invariant forall k :: k in results <==> k in keys[..i] && Lookup(store, k, now).Some?
        invariant forall k :: k in results ==> Some(results[k]) == Lookup(store, k, now)
      {
        var value := Get(keys[i], now);
        if value.Some? {
          results := results[keys[i] := value.value];
        }
      }
    }

    method FlushPattern(selects: string -> bool, now: real) returns (count: nat)
      modifies this
      ensures count == |LiveKeys(old(store), selects, now)|
      ensures store == Remove(old(store), LiveKeys(old(store), selects, now))
      ensures forall k :: k in store <==> k in old(store) && !(selects(k) && Lookup(old(store), k, now).Some?)
      ensures forall k :: k in store ==> store[k] == old(store)[k]
    {
      var keys := set k | k in store && Live(store[k], now) && selects(k);
      store := map k | k in store && k !in keys :: store[k];
      count := |keys|;
    }
  }
}
