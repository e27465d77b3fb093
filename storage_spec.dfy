/** The storage as a state machine over values: a bounded primary store,
    and in front of it an LRU cache made of a recency list (most recently
    used first) and a mirror of the cached entries' values. Every step is
    written as the storage performs it: `load` and `remove` look in the
    cache first, while `store` checks capacity and writes the primary store
    before it touches the cache. Each contract says what a caller observes,
    which is the behaviour of a plain bounded map. */
module StorageSpec {
  import opened Outcomes
  import opened Recency
  import BoundedMap

  /** The two sizes fixed at construction. */
  datatype Config = Config(capacity: nat, cacheCapacity: nat)

  /** The primary store, the recency list and the cache's value mirror. */
  datatype State<K, V> = State(store: map<K, V>, recency: seq<K>, cache: map<K, V>)

  /** The cache on its own is well formed: its keys are exactly the
      elements of the recency list, each once, and there are at most
      `cacheCapacity` of them. */
  ghost predicate CacheShaped<K, V>(cacheCapacity: nat, s: State<K, V>)
  {
    && Distinct(s.recency)
    && |s.recency| <= cacheCapacity
    && (forall x :: x in s.cache ==> x in s.recency)
    && (forall x :: x in s.recency ==> x in s.cache)
  }

  /** Every cached entry is in the primary store with the same value. */
  ghost predicate Coherent<K, V>(s: State<K, V>)
  {
    forall x :: x in s.cache ==> x in s.store && s.cache[x] == s.store[x]
  }

  /** The invariant every completed operation keeps. */
  ghost predicate Inv<K, V>(c: Config, s: State<K, V>)
  {
    && c.cacheCapacity < c.capacity
    && |s.store| <= c.capacity
    && CacheShaped(c.cacheCapacity, s)
    && Coherent(s)
  }

  /** Construction: a cache that is not strictly smaller than the store is
      rejected with an invalid-argument error; otherwise both are empty. */
  function Create<K(==), V>(storageSize: nat, cacheSize: nat): (r: Result<(Config, State<K, V>)>)
    ensures r.Err? <==> storageSize <= cacheSize
    ensures r.Err? ==> r.error == InvalidArgument
    ensures r.Ok? ==> r.value.0 == Config(storageSize, cacheSize) && Inv(r.value.0, r.value.1)
    ensures r.Ok? ==> r.value.1.store == map[] && r.value.1.cache == map[]
  {
    if cacheSize >= storageSize then Err(InvalidArgument)
    else Ok((Config(storageSize, cacheSize), State(map[], [], map[])))
  }

  /** The cache's insert-or-touch: `k` becomes the most recently used key
      with mirrored value `v`, evicting the least recently used key when
      the cache is full. The primary store is not touched. */
  function LruAdd<K(==), V>(cacheCapacity: nat, s: State<K, V>, k: K, v: V): (r: State<K, V>)
    requires CacheShaped(cacheCapacity, s)
    ensures CacheShaped(cacheCapacity, r)
    ensures r.store == s.store
    ensures r.recency == Promote(s.recency, k, cacheCapacity)
    ensures cacheCapacity > 0 ==> k in r.cache && r.cache[k] == v
    ensures forall x :: x in r.cache && x != k ==> x in s.cache && r.cache[x] == s.cache[x]
  {
    var rec := Promote(s.recency, k, cacheCapacity);
    if cacheCapacity == 0 then s
    else if k in s.cache || |s.recency| < cacheCapacity then State(s.store, rec, s.cache[k := v])
    else
      PromoteMiss(s.recency, k, cacheCapacity);
      DropLast(s.recency);
      State(s.store, rec, (s.cache - {s.recency[|s.recency| - 1]})[k := v])
  }

  /** Touching a cached key moves it to the front and refreshes its value. */
  lemma LruAddHit<K, V>(cacheCapacity: nat, s: State<K, V>, i: nat, v: V)
    requires CacheShaped(cacheCapacity, s) && i < |s.recency|
    ensures var k := s.recency[i];
      LruAdd(cacheCapacity, s, k, v)
        == State(s.store, [k] + (s.recency[..i] + s.recency[i + 1..]), s.cache[k := v])
  {
    var k := s.recency[i];
    PromoteHit(s.recency, i, cacheCapacity);
    WithoutAt(s.recency, i);
    var t := LruAdd(cacheCapacity, s, k, v);
    assert t.cache.Keys == s.cache[k := v].Keys;
  }

  /** Touching a key that is not cached, while the cache has room, inserts
      it in front. A cache of size zero has no room and stays empty. */
  lemma LruAddInsert<K, V>(cacheCapacity: nat, s: State<K, V>, k: K, v: V)
    requires CacheShaped(cacheCapacity, s) && k !in s.cache && |s.recency| < cacheCapacity
    ensures LruAdd(cacheCapacity, s, k, v) == State(s.store, [k] + s.recency, s.cache[k := v])
  {
    PromoteMiss(s.recency, k, cacheCapacity);
    assert LruAdd(cacheCapacity, s, k, v).cache.Keys == s.cache[k := v].Keys;
  }

  /** Touching a key that is not cached when the cache is full evicts the
      last, least recently used, key and inserts the new one in front. */
  lemma LruAddEvict<K, V>(cacheCapacity: nat, s: State<K, V>, k: K, v: V)
    requires CacheShaped(cacheCapacity, s) && k !in s.cache && |s.recency| == cacheCapacity > 0
    ensures var last := s.recency[|s.recency| - 1];
      LruAdd(cacheCapacity, s, k, v)
        == State(s.store, [k] + s.recency[..|s.recency| - 1], (s.cache - {last})[k := v])
  {
    var last := s.recency[|s.recency| - 1];
    PromoteMiss(s.recency, k, cacheCapacity);
    DropLast(s.recency);
    assert LruAdd(cacheCapacity, s, k, v).cache.Keys == (s.cache - {last})[k := v].Keys;
  }

  /** `store`: a new key when the store is full fails with out-of-range and
      changes nothing; otherwise the value is written to the store and the
      key is promoted in the cache. */
  function Store<K(==), V>(c: Config, s: State<K, V>, k: K, v: V): (r: (Result<()>, State<K, V>))
    requires Inv(c, s)
    ensures Inv(c, r.1)
    ensures r.0.Ok? <==> k in s.store || |s.store| < c.capacity
    ensures r.0.Err? ==> r.0.error == OutOfRange && r.1 == s
    ensures r.0.Ok? ==> r.1.store == s.store[k := v]
    ensures r.0.Ok? ==> r.1.recency == Promote(s.recency, k, c.cacheCapacity)
  {
    if k !in s.store && |s.store| >= c.capacity then (Err(OutOfRange), s)
    else
      var t := LruAdd(c.cacheCapacity, s.(store := s.store[k := v]), k, v);
      assert |t.store| <= c.capacity by {
        if k !in s.store { assert |s.store[k := v]| == |s.store| + 1; }
      }
      (Ok(()), t)
  }

  /** `load`: a cache hit returns the mirrored value, a miss falls back to
      the store; either way the key is promoted. A key in neither fails
      with out-of-range and changes nothing. */
  function Load<K(==), V>(c: Config, s: State<K, V>, k: K): (r: (Result<V>, State<K, V>))
    requires Inv(c, s)
    ensures Inv(c, r.1)
    ensures r.0 == if k in s.store then Ok(s.store[k]) else Err(OutOfRange)
    ensures r.1.store == s.store
    ensures r.0.Err? ==> r.1 == s
    ensures r.0.Ok? ==> r.1.recency == Promote(s.recency, k, c.cacheCapacity)
  {
    if k in s.cache then (Ok(s.cache[k]), LruAdd(c.cacheCapacity, s, k, s.cache[k]))
    else if k in s.store then (Ok(s.store[k]), LruAdd(c.cacheCapacity, s, k, s.store[k]))
    else (Err(OutOfRange), s)
  }

  /** `remove`: the value is taken from the cache if it is cached, else
      from the store, and the key leaves both. A key in neither fails with
      out-of-range and changes nothing. */
  function Remove<K(==), V>(c: Config, s: State<K, V>, k: K): (r: (Result<V>, State<K, V>))
    requires Inv(c, s)
    ensures Inv(c, r.1)
    ensures r.0 == if k in s.store then Ok(s.store[k]) else Err(OutOfRange)
    ensures r.1.store == s.store - {k}
    ensures k !in r.1.cache && k !in r.1.recency
    ensures r.0.Ok? ==> r.1.recency == Without(s.recency, k) && r.1.cache == s.cache - {k}
    ensures r.0.Err? ==> r.1 == s
  {
    if k in s.cache then
      RemoveKeepsInv(c, s, k);
      (Ok(s.cache[k]), State(s.store - {k}, Without(s.recency, k), s.cache - {k}))
    else if k in s.store then
      RemoveUncached(c, s, k);
      (Ok(s.store[k]), s.(store := s.store - {k}))
    else
      assert k !in s.recency && s.store - {k} == s.store;
      (Err(OutOfRange), s)
  }

  /** Dropping a cached key from store, cache and recency list keeps the
      invariant. */
  lemma RemoveKeepsInv<K, V>(c: Config, s: State<K, V>, k: K)
    requires Inv(c, s) && k in s.cache
    ensures Inv(c, State(s.store - {k}, Without(s.recency, k), s.cache - {k}))
    ensures k in s.store && s.cache[k] == s.store[k] && k !in Without(s.recency, k)
  {
    assert |s.store - {k}| <= |s.store|;
  }

  /** Removing a key that is stored but not cached leaves the cache as it
      is. */
  lemma RemoveUncached<K, V>(c: Config, s: State<K, V>, k: K)
    requires Inv(c, s) && k !in s.cache
    ensures Without(s.recency, k) == s.recency && s.cache - {k} == s.cache
    ensures Inv(c, s.(store := s.store - {k}))
  {
    assert |s.store - {k}| <= |s.store|;
  }

  /** Removing a cached key splices it out of the recency list. */
  lemma RemoveCached<K, V>(c: Config, s: State<K, V>, i: nat)
    requires Inv(c, s) && i < |s.recency|
    ensures var k := s.recency[i];
      Remove(c, s, k)
        == (Ok(s.cache[k]), State(s.store - {k}, s.recency[..i] + s.recency[i + 1..], s.cache - {k}))
  {
    WithoutAt(s.recency, i);
  }

  /** `contains`: a probe of the cache, then of the store. */
  function Contains<K(==), V>(s: State<K, V>, k: K): (b: bool)
    requires Coherent(s)
    ensures b <==> k in s.store
  {
    k in s.cache || k in s.store
  }

  /** One call on the public interface, as the caller sees it. */
  function Apply<K(==), V>(c: Config, s: State<K, V>, op: BoundedMap.Op<K, V>): (r: (BoundedMap.Reply<V>, State<K, V>))
    requires Inv(c, s)
    ensures Inv(c, r.1)
  {
    match op
    case StoreOp(k, v) =>
      var (o, t) := Store(c, s, k, v);
      (if o.Ok? then BoundedMap.Stored else BoundedMap.Failed(o.error), t)
    case LoadOp(k) =>
      var (o, t) := Load(c, s, k);
      (if o.Ok? then BoundedMap.Value(o.value) else BoundedMap.Failed(o.error), t)
    case RemoveOp(k) =>
      var (o, t) := Remove(c, s, k);
      (if o.Ok? then BoundedMap.Value(o.value) else BoundedMap.Failed(o.error), t)
    case ContainsOp(k) => (BoundedMap.Present(Contains(s, k)), s)
  }

  /** A sequence of calls: the replies in order, and the final state. Every
      intermediate state satisfies the invariant, so in particular the
      store never holds more than `capacity` keys and the cache never more
      than `cacheCapacity`. */
  function Run<K(==), V>(c: Config, s: State<K, V>, ops: seq<BoundedMap.Op<K, V>>): (r: (seq<BoundedMap.Reply<V>>, State<K, V>))
    requires Inv(c, s)
    ensures Inv(c, r.1)
    ensures |r.0| == |ops|
    ensures |r.1.store| <= c.capacity && |r.1.recency| <= c.cacheCapacity
    decreases |ops|
  {
    if ops == [] then ([], s)
    else
      var (a, t) := Apply(c, s, ops[0]);
      var (rest, u) := Run(c, t, ops[1..]);
      ([a] + rest, u)
  }

  /** One call answers exactly as the bounded dictionary does and leaves
      the store holding exactly the dictionary's new contents. */
  lemma ApplyRefinesBoundedMap<K, V>(c: Config, s: State<K, V>, op: BoundedMap.Op<K, V>)
    requires Inv(c, s)
    ensures Apply(c, s, op).0 == BoundedMap.Apply(c.capacity, s.store, op).0
    ensures Apply(c, s, op).1.store == BoundedMap.Apply(c.capacity, s.store, op).1
  {
  }

  /** The cache is invisible: for every sequence of calls the storage gives
      the same replies as the bounded dictionary, and ends holding the same
      contents, whatever the cache evicted along the way. */
  lemma {:induction false} CacheIsInvisible<K, V>(c: Config, s: State<K, V>, ops: seq<BoundedMap.Op<K, V>>)
    requires Inv(c, s)
    ensures Run(c, s, ops).0 == BoundedMap.Run(c.capacity, s.store, ops).0
    ensures Run(c, s, ops).1.store == BoundedMap.Run(c.capacity, s.store, ops).1
    decreases |ops|
  {
    if ops != [] {
      ApplyRefinesBoundedMap(c, s, ops[0]);
      CacheIsInvisible(c, Apply(c, s, ops[0]).1, ops[1..]);
    }
  }
}
