/** The storage object: a bounded primary store with a smaller LRU cache in
    front of it, updated in place. Every method is proved to move the
    object's state exactly as the state machine in StorageSpec does. */
module ThreadsafeStorage {
  import opened Outcomes
  import opened Recency
  import StorageSpec

  class Storage<K(==), V> {
    /** The most keys the primary store may hold. */
    const capacity: nat
    /** The most keys the cache may hold. */
    const cacheCapacity: nat

    /** The primary store. */
    var store: map<K, V>
    /** The cached keys, most recently used first. */
    var recency: seq<K>
    /** The values of the cached keys. */
    var cache: map<K, V>

    function Config(): StorageSpec.Config
    {
      StorageSpec.Config(capacity, cacheCapacity)
    }

    function View(): StorageSpec.State<K, V>
      reads this
    {
      StorageSpec.State(store, recency, cache)
    }

    ghost predicate Valid()
      reads this
    {
      StorageSpec.Inv(Config(), View())
    }

    /** Construction with sizes already known to be acceptable. */
    constructor (storageSize: nat, cacheSize: nat)
      requires cacheSize < storageSize
      ensures Valid()
      ensures capacity == storageSize && cacheCapacity == cacheSize
      ensures store == map[] && recency == [] && cache == map[]
    {
      capacity, cacheCapacity := storageSize, cacheSize;
      store, recency, cache := map[], [], map[];
    }

    /** Construction as callers see it: a cache that is not strictly
        smaller than the store throws invalid-argument. */
    static method Create(storageSize: nat, cacheSize: nat) returns (r: Result<Storage<K, V>>)
      ensures r.Err? <==> StorageSpec.Create<K, V>(storageSize, cacheSize).Err?
      ensures r.Err? ==> r.error == InvalidArgument
      ensures r.Ok? ==> fresh(r.value) && r.value.Valid()
      ensures r.Ok? ==> (r.value.Config(), r.value.View()) == StorageSpec.Create<K, V>(storageSize, cacheSize).value
    {
      if cacheSize >= storageSize {
        return Err(InvalidArgument);
      }
      var s := new Storage(storageSize, cacheSize);
      return Ok(s);
    }

    /** The cache's insert-or-touch: move `key` to the front of the recency
        list, or insert it there, evicting the last key when the cache is
        full, and mirror `value` for it. */
    method LruCacheAdd(key: K, value: V)
      requires StorageSpec.CacheShaped(cacheCapacity, View())
      modifies this
      ensures View() == StorageSpec.LruAdd(cacheCapacity, old(View()), key, value)
    {
      if key in cache {
        var i := IndexOf(recency, key);
        StorageSpec.LruAddHit(cacheCapacity, View(), i, value);
        recency := [key] + (recency[..i] + recency[i + 1..]);
        cache := cache[key := value];
      } else {
        if |recency| < cacheCapacity {
          StorageSpec.LruAddInsert(cacheCapacity, View(), key, value);
          recency := [key] + recency;
          cache := cache[key := value];
        } else if cacheCapacity > 0 {
          StorageSpec.LruAddEvict(cacheCapacity, View(), key, value);
          var victim := recency[|recency| - 1];
          recency := [key] + recency[..|recency| - 1];
          cache := (cache - {victim})[key := value];
        }
      }
    }

    /** `store(key, value)`: throws out-of-range for a new key when the store
        is full; otherwise writes the value and touches the key in the
        cache. */
    method Store(key: K, value: V) returns (r: Result<()>)
      requires Valid()
      modifies this
      ensures Valid()
      ensures (r, View()) == StorageSpec.Store(Config(), old(View()), key, value)
    {
      if key !in store && |store| >= capacity {
        return Err(OutOfRange);
      }
      store := store[key := value];
      LruCacheAdd(key, value);
      return Ok(());
    }

    /** `load(key)`: served from the cache on a hit, from the store on a
        miss; the key is touched either way. Throws out-of-range for a key
        in neither. */
    method Load(key: K) returns (r: Result<V>)
      requires Valid()
      modifies this
      ensures Valid()
      ensures (r, View()) == StorageSpec.Load(Config(), old(View()), key)
    {
      if key in cache {
        var value := cache[key];
        LruCacheAdd(key, value);
        return Ok(value);
      }
      if key !in store {
        return Err(OutOfRange);
      }
      var value := store[key];
      LruCacheAdd(key, value);
      return Ok(value);
    }

    /** `remove(key)`: drops the key from the cache, then from the store,
        and returns the value it had. Throws out-of-range for a key in
        neither. */
    method Remove(key: K) returns (r: Result<V>)
      requires Valid()
      modifies this
      ensures Valid()
      ensures (r, View()) == StorageSpec.Remove(Config(), old(View()), key)
    {
      if key in cache {
        var value := cache[key];
        var i := IndexOf(recency, key);
        StorageSpec.RemoveCached(Config(), View(), i);
        recency := recency[..i] + recency[i + 1..];
        cache := cache - {key};
        store := store - {key};
        return Ok(value);
      }
      if key !in store {
        return Err(OutOfRange);
      }
      var value := store[key];
      store := store - {key};
      return Ok(value);
    }

    /** `contains(key)`: true exactly when the key is stored. It probes the
        cache and then the store and changes nothing, so it never affects
        the cache's recency order. */
    method Contains(key: K) returns (b: bool)
      requires Valid()
      ensures b <==> key in store
    {
      b := key in cache || key in store;
    }
  }
}
