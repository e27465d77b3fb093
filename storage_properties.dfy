/** Properties of the storage that relate several calls, as the test suite
    exercises them. */
module StorageProperties {
  import opened Outcomes
  import opened Recency
  import opened StorageSpec
  import BoundedMap

  /** A successful `store(k, v)` followed by `load(k)` returns `v`. */
  lemma StoreThenLoad<K, V>(c: Config, s: State<K, V>, k: K, v: V)
    requires Inv(c, s) && Store(c, s, k, v).0.Ok?
    ensures Load(c, Store(c, s, k, v).1, k).0 == Ok(v)
  {
  }

  /** Storing twice under one key: the second store succeeds even if the
      store is full, and a later load returns the second value. */
  lemma LastWriteWins<K, V>(c: Config, s: State<K, V>, k: K, v1: V, v2: V)
    requires Inv(c, s) && Store(c, s, k, v1).0.Ok?
    ensures var t := Store(c, s, k, v1).1;
      Store(c, t, k, v2).0.Ok? && Load(c, Store(c, t, k, v2).1, k).0 == Ok(v2)
  {
    var t := Store(c, s, k, v1).1;
    assert k in t.store;
  }

  /** After a successful store, `remove` returns the stored value and the
      key is then no longer contained. */
  lemma StoreThenRemove<K, V>(c: Config, s: State<K, V>, k: K, v: V)
    requires Inv(c, s) && Store(c, s, k, v).0.Ok?
    ensures var t := Store(c, s, k, v).1;
      Contains(t, k) && Remove(c, t, k).0 == Ok(v) && !Contains(Remove(c, t, k).1, k)
  {
  }

  /** A store holding `capacity` keys rejects a new key with out-of-range
      and is left unchanged; it never grows past `capacity`. */
  lemma FullStoreRejectsNewKey<K, V>(c: Config, s: State<K, V>, k: K, v: V)
    requires Inv(c, s) && |s.store| == c.capacity && k !in s.store
    ensures Store(c, s, k, v) == (Err(OutOfRange), s)
  {
  }

  /** Overwriting a key that is present never counts against capacity. */
  lemma OverwriteAlwaysSucceeds<K, V>(c: Config, s: State<K, V>, k: K, v: V)
    requires Inv(c, s) && k in s.store
    ensures Store(c, s, k, v).0 == Ok(()) && |Store(c, s, k, v).1.store| == |s.store|
  {
  }

  /** `load` and `remove` of a key that is not present throw out-of-range
      and leave the whole state, cache order included, unchanged. */
  lemma MissingKeyFails<K, V>(c: Config, s: State<K, V>, k: K)
    requires Inv(c, s) && !Contains(s, k)
    ensures Load(c, s, k) == (Err(OutOfRange), s)
    ensures Remove(c, s, k) == (Err(OutOfRange), s)
  {
  }

  /** Eviction never loses data: after any successful store, every other
      key keeps its value, is still contained and still loads that value,
      whether or not the cache evicted it. */
  lemma EvictionKeepsData<K, V>(c: Config, s: State<K, V>, k: K, v: V, x: K)
    requires Inv(c, s) && Store(c, s, k, v).0.Ok? && x in s.store && x != k
    ensures var t := Store(c, s, k, v).1;
      Contains(t, x) && Load(c, t, x).0 == Ok(s.store[x])
  {
  }

  /** The cache replaces strictly the least recently used key. Touching a
      key (a successful `store` or `load` of it) makes it the most recent:
      a key that was cached, or any key while the cache has room, goes to
      the front with the rest in their old order; a key that was not cached
      when the cache is full evicts exactly the last key of the list. */
  lemma {:induction false} TouchIsLru<K, V>(c: Config, s: State<K, V>, t: State<K, V>, k: K)
    requires Inv(c, s) && c.cacheCapacity > 0
    requires (k in s.store && t == Load(c, s, k).1) || exists v :: Store(c, s, k, v).0.Ok? && t == Store(c, s, k, v).1
    ensures k in s.cache || |s.recency| < c.cacheCapacity ==> t.recency == [k] + Without(s.recency, k)
    ensures k !in s.cache && |s.recency| == c.cacheCapacity ==>
      t.recency == [k] + s.recency[..|s.recency| - 1] && s.recency[|s.recency| - 1] !in t.cache
  {
    PromoteIsLru(s.recency, k, c.cacheCapacity);
  }

  /** `contains` is not an access: it answers whether the key is stored
      and leaves the whole state, cache order included, as it was, so every
      later eviction happens exactly as if the probe had not been made. */
  lemma ContainsIsNotAnAccess<K, V>(c: Config, s: State<K, V>, k: K)
    requires Inv(c, s)
    ensures Apply(c, s, BoundedMap.ContainsOp(k)) == (BoundedMap.Present(k in s.store), s)
  {
  }

  /** What one successful call does to the recency list. */
  function RecencyStep<K(==), V>(r: seq<K>, op: BoundedMap.Op<K, V>, cacheCapacity: nat): seq<K>
  {
    match op
    case StoreOp(k, _) => Promote(r, k, cacheCapacity)
    case LoadOp(k) => Promote(r, k, cacheCapacity)
    case RemoveOp(k) => Without(r, k)
    case ContainsOp(_) => r
  }

  /** The recency list after a sequence of successful calls. */
  function RecencyRun<K(==), V>(r: seq<K>, ops: seq<BoundedMap.Op<K, V>>, cacheCapacity: nat): seq<K>
    decreases |ops|
  {
    if ops == [] then r else RecencyRun(RecencyStep(r, ops[0], cacheCapacity), ops[1..], cacheCapacity)
  }

  /** No call threw. */
  ghost predicate NoneFailed<V>(replies: seq<BoundedMap.Reply<V>>)
  {
    forall i :: 0 <= i < |replies| ==> !replies[i].Failed?
  }

  /** As long as no call fails, the cache order depends only on the keys
      the calls touch: `store` and `load` promote, `remove` deletes,
      `contains` does nothing; neither values nor the store's contents play
      a part. */
  lemma {:induction false} RecencyIsReplayed<K, V>(c: Config, s: State<K, V>, ops: seq<BoundedMap.Op<K, V>>)
    requires Inv(c, s) && NoneFailed(Run(c, s, ops).0)
    ensures Run(c, s, ops).1.recency == RecencyRun(s.recency, ops, c.cacheCapacity)
    decreases |ops|
  {
    if ops != [] {
      var (a, t) := Apply(c, s, ops[0]);
      assert Run(c, s, ops).0[0] == a;
      assert t.recency == RecencyStep(s.recency, ops[0], c.cacheCapacity);
      var rest := Run(c, t, ops[1..]).0;
      assert Run(c, s, ops).0 == [a] + rest;
      assert NoneFailed(rest) by {
        forall i | 0 <= i < |rest| ensures !rest[i].Failed? {
          assert rest[i] == Run(c, s, ops).0[i + 1];
        }
      }
      RecencyIsReplayed(c, t, ops[1..]);
    }
  }
}
