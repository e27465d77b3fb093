# Thread-safe storage with an LRU cache, modelled in Dafny

`Storage<Key, Value>` (src/storage.hpp) is a bounded key/value store
meant to have a smaller least-recently-used cache in front of it. The
header is a test-first skeleton: the method bodies are empty, `contains`
returns `false`, and the private helper `lru_cache_add` has no body. What
the model fixes comes from two places.

From the suite in tests/test_threadsafe_storage.cpp, which the model
follows wherever it and the header disagree:

- construction with a cache as large as the store is rejected with
  `std::invalid_argument`;
- `store(key, value)` inserts or overwrites, and a new key when the store
  is full throws `std::out_of_range`;
- `load(key)` returns the value, and `remove(key)` removes the key and
  returns its value; both throw `std::out_of_range` for a missing key;
- `contains(key)` is a presence probe.

From the name `lru_cache_add` and the intended design, not from the
suite: the cache keeps a recency list of at most `cache_capacity` keys,
most recent first, with a mirror of their values. A successful `store` or
`load` promotes the key, evicting the least recently used key when a new
key enters a full cache; `contains` does not count as an access. Eviction
only ever drops the cache copy; the primary store keeps every key. The
suite cannot see any of this: `StorageSpec.CacheIsInvisible` proves that
the replies and the stored data are those of a plain bounded dictionary
whatever the cache does. The model also rejects every cache that is not
strictly smaller than the store, which generalises the single equal-sizes
case the suite checks.

The project has these modules:

- `Outcomes` (outcomes.dfy): the two exceptions as an `Error` datatype, and
  `Result`.
- `Recency` (recency.dfy): the recency list as a pure sequence. `Without`
  splices a key out, and `Promote` is the LRU move-to-front with truncation
  to the cache size. Lemmas state it is strict LRU.
- `BoundedMap` (bounded_map.dfy): the storage as callers can observe it, a
  plain dictionary of at most `capacity` keys with no cache. It is the
  reference for the storage.
- `StorageSpec` (storage_spec.dfy): the storage as a state machine over
  `State(store, recency, cache)` with its invariant `Inv`. `Inv` says:
  - the store is within capacity;
  - the cache is strictly smaller than the store;
  - the recency list is duplicate-free, within the cache size, and holds
    exactly the cached keys;
  - every cached value equals the stored one.

  `CacheIsInvisible` proves that any sequence of calls gives exactly the
  replies and store contents of `BoundedMap`.
- `ThreadsafeStorage` (storage.dfy): class `Storage`, with fields
  `store: map`, `recency: seq`, `cache: map` and the two capacities as
  constants. Each method updates the fields in place and is proved to
  move the object exactly as the matching `StorageSpec` step does.
- `StorageProperties` (storage_properties.dfy): properties that relate
  several calls:
  - round trips and last write wins;
  - capacity;
  - the error paths leave the state unchanged;
  - eviction keeps data;
  - strict LRU;
  - `contains` is not an access;
  - the cache order depends only on the keys touched.
- `TestScenarios` (test_scenarios.dfy): the sequential tests of the suite
  as lemmas. The cache tests' fill loop is proved by induction.

## Model

| member | source | states |
|---|---|---|
| ThreadsafeStorage.Storage.constructor | src/storage.hpp:16-19 | acceptable sizes give empty storage with those capacities that satisfies the invariant |
| ThreadsafeStorage.Storage.Create | tests/test_threadsafe_storage.cpp:13-18 | construction fails with invalid-argument exactly when the cache size is not below the store size; otherwise a fresh valid object in the initial state |
| ThreadsafeStorage.Storage.LruCacheAdd | src/storage.hpp:35 | the in-place splice, prepend or evict-and-prepend leaves the object exactly in the state `StorageSpec.LruAdd` describes |
| ThreadsafeStorage.Storage.Store | src/storage.hpp:21 | keeps the invariant; reply and new state are those of `StorageSpec.Store` |
| ThreadsafeStorage.Storage.Load | src/storage.hpp:23 | keeps the invariant; reply and new state are those of `StorageSpec.Load` |
| ThreadsafeStorage.Storage.Remove | src/storage.hpp:25 | keeps the invariant; reply and new state are those of `StorageSpec.Remove` |
| ThreadsafeStorage.Storage.Contains | src/storage.hpp:27-29 | true exactly when the key is in the primary store; changes nothing |
| StorageSpec.Create | tests/test_threadsafe_storage.cpp:13-18 | fails, with invalid-argument, if and only if the cache size is at least the store size; success gives empty store and cache satisfying the invariant |
| StorageSpec.LruAdd | src/storage.hpp:35 | keeps the cache shape; the recency list becomes `Promote` of the old one; the key is cached with the new value; every other cached key was cached before with the same value; the store is untouched |
| StorageSpec.LruAddHit | src/storage.hpp:35 | touching a cached key splices it out of the list and puts it in front, refreshing its value |
| StorageSpec.LruAddInsert | src/storage.hpp:35 | a new key with room in the cache is put in front and nothing leaves |
| StorageSpec.LruAddEvict | src/storage.hpp:35 | a new key when the cache is full drops exactly the last key from list and cache and goes in front |
| StorageSpec.Store | src/storage.hpp:21 | keeps the invariant; succeeds if and only if the key is present or the store has room; failure is out-of-range and changes nothing; success writes the value and promotes the key |
| StorageSpec.Load | src/storage.hpp:23 | keeps the invariant; returns the stored value or out-of-range for a missing key; never changes the store; failure changes nothing; success promotes the key |
| StorageSpec.Remove | src/storage.hpp:25 | keeps the invariant; returns the stored value or out-of-range; the key leaves store, cache and recency list while every other cached key keeps its value and place; failure changes nothing |
| StorageSpec.RemoveUncached | src/storage.hpp:25 | removing a stored key that is not cached leaves recency list and cache unchanged and keeps the invariant |
| StorageSpec.RemoveKeepsInv | src/storage.hpp:25 | removing a cached key from store, cache and recency list keeps the invariant, and the cached value is the stored one |
| StorageSpec.RemoveCached | src/storage.hpp:25 | removing a cached key returns the cached value and splices the key out of the recency list at its position |
| StorageSpec.Contains | src/storage.hpp:27-29 | probing cache or store is true if and only if the key is in the primary store |
| StorageSpec.Apply | src/storage.hpp:21-29 | any call keeps the invariant |
| StorageSpec.Run | src/storage.hpp:21-29 | any sequence of calls keeps the invariant, one reply per call, store within capacity and cache within its size |
| StorageSpec.ApplyRefinesBoundedMap | src/storage.hpp:21-29 | one call replies and changes the store exactly as on the plain bounded dictionary |
| StorageSpec.CacheIsInvisible | src/storage.hpp:21-35 | for every sequence of calls, the replies and the final store equal those of the bounded dictionary: the cache is unobservable |
| BoundedMap.Apply | src/storage.hpp:21-29 | the reference call keeps the dictionary within capacity, and a failed call changes nothing |
| BoundedMap.Run | src/storage.hpp:21-29 | a reference run gives one reply per call and stays within capacity |
| Recency.Without | src/storage.hpp:35 | removes exactly the given key and keeps every other one; keeps the list duplicate-free and one shorter when the key was listed |
| Recency.Promote | src/storage.hpp:35 | the promoted key is in front, nothing else new appears, the list stays duplicate-free and within the cache size |
| Recency.PromoteIsLru | src/storage.hpp:35 | strict LRU: a listed key, or a new key with room, goes in front and nothing leaves; a new key in a full list evicts exactly the last key |
| Recency.PromoteHit | src/storage.hpp:35 | promoting the key at a known position splices it out and puts it in front |
| Recency.PromoteMiss | src/storage.hpp:35 | promoting a new key prepends it, dropping the last key when the list is full |
| Recency.DropLast | src/storage.hpp:35 | in a duplicate-free list the last key is the only one the truncation drops |
| StorageProperties.StoreThenLoad | tests/test_threadsafe_storage.cpp:35-36 | a successful store then a load returns the stored value |
| StorageProperties.LastWriteWins | tests/test_threadsafe_storage.cpp:38-39 | re-storing a key always succeeds and a later load returns the newer value |
| StorageProperties.StoreThenRemove | tests/test_threadsafe_storage.cpp:45-52 | after a store the key is contained, remove returns the value, and then the key is not contained |
| StorageProperties.FullStoreRejectsNewKey | tests/test_threadsafe_storage.cpp:25-28 | a full store rejects a new key with out-of-range and is left unchanged |
| StorageProperties.OverwriteAlwaysSucceeds | tests/test_threadsafe_storage.cpp:87 | overwriting a present key succeeds even when full and does not grow the store |
| StorageProperties.MissingKeyFails | tests/test_threadsafe_storage.cpp:56-68 | load and remove of an absent key throw out-of-range and leave the whole state unchanged |
| StorageProperties.EvictionKeepsData | tests/test_threadsafe_storage.cpp:89-94 | after any successful store every other stored key is still contained and loads its value, evicted or not |
| StorageProperties.TouchIsLru | src/storage.hpp:35 | a successful load of a stored key, or any successful store including one of a key new to the store, makes it most recent; only a new key in a full cache evicts, and then exactly the least recently used key |
| StorageProperties.ContainsIsNotAnAccess | src/storage.hpp:27-29 | contains answers presence and leaves the whole state, recency order included, unchanged |
| StorageProperties.RecencyIsReplayed | src/storage.hpp:35 | across any sequence of successful calls the recency list is the replay of promotions and removals of the touched keys |
| TestScenarios.FreshStorageReplies | src/storage.hpp:16-29 | freshly built storage replies to any calls as an empty bounded dictionary of the store's size |
| TestScenarios.InvalidConstructor | tests/test_threadsafe_storage.cpp:13-18 | sizes 10 and 10 are rejected with invalid-argument |
| TestScenarios.InvalidStore | tests/test_threadsafe_storage.cpp:21-29 | with room for two, cat and dog are stored and bird is rejected with out-of-range |
| TestScenarios.StoreLoad | tests/test_threadsafe_storage.cpp:32-40 | loads return meow, then meoooow after the overwrite |
| TestScenarios.RemoveContains | tests/test_threadsafe_storage.cpp:43-53 | cat is contained, dog is not, remove returns meow and cat is then not contained |
| TestScenarios.UnexistentLoadAndRemove | tests/test_threadsafe_storage.cpp:56-61 | load and remove of a never-stored key both throw out-of-range |
| TestScenarios.UnexistentRemove | tests/test_threadsafe_storage.cpp:64-68 | remove of a never-stored key throws out-of-range |
| TestScenarios.Filling | tests/test_threadsafe_storage.cpp:76-78 | the store after the fill loop's first stores holds exactly those keys, each mapped to its successor |
| TestScenarios.RecentStep | tests/test_threadsafe_storage.cpp:76-78 | each store of the fill loop makes its key the most recent of the last three |
| TestScenarios.FillStep | tests/test_threadsafe_storage.cpp:77 | one store of the fill loop succeeds and extends the filled store and cache |
| TestScenarios.FillRunStep | tests/test_threadsafe_storage.cpp:76-78 | a run of the fill loop is one successful store followed by the rest of the loop |
| TestScenarios.FillFills | tests/test_threadsafe_storage.cpp:76-78 | the fill loop leaves keys 0 to 9 mapped to 1 to 10 and keys 9, 8, 7 cached |
| TestScenarios.FillDictionary | tests/test_threadsafe_storage.cpp:76-78 | on the bounded dictionary every store of the fill loop succeeds and the loop yields the filled store |
| TestScenarios.FillFromEmpty | tests/test_threadsafe_storage.cpp:72-78 | from construction with sizes 10 and 3 every store of the fill loop succeeds and leaves keys 0 to 9 mapped to 1 to 10 with 9, 8, 7 cached |
| TestScenarios.TouchOrder | tests/test_threadsafe_storage.cpp:80-87 | loads of 0, 1, 2, 0, 1 and a store of 3 leave the cache order 3, 1, 0 and the store unchanged but for key 3 |
| TestScenarios.EvictedStillStored | tests/test_threadsafe_storage.cpp:89-94 | key 2 is evicted from the cache yet contained, loads 3 and is removed with 3; keys 0, 1, 3 are contained |
| TestScenarios.RetouchedLoads | tests/test_threadsafe_storage.cpp:95-103 | after the further stores and loads key 3 still loads 4 |
| TestScenarios.AfterFill | tests/test_threadsafe_storage.cpp:80-129 | from the filled storage, key 2 is evicted from the cache but still contained, loaded and removed with value 3, and key 3 finally loads 4 |
| TestScenarios.CacheTests | tests/test_threadsafe_storage.cpp:71-129 | from construction with sizes 10 and 3: every fill store succeeds, key 2 is evicted from the cache but still contained, loaded and removed with value 3, and key 3 finally loads 4 |

## Left out

- Locking: the header only includes `<mutex>` and `<shared_mutex>` (src/storage.hpp:5, 9); it declares no lock and no locking rule. All calls are modelled as atomic and sequential, so nothing a concurrent caller could observe between steps of one call is modelled.
- The cache policy (strict LRU order, promotion on `load` as well as `store`, `contains` not being an access) and the rejection of every cache size at or above the store size: the suite cannot observe the first (`StorageSpec.CacheIsInvisible`) and checks the second only for equal sizes (tests/test_threadsafe_storage.cpp:13-18). Both come from the helper's name `lru_cache_add` and the intended design, not from anything the suite or the header enforces.
- The multi-threaded test (tests/test_threadsafe_storage.cpp:134-178): it needs threads and random number engines. Its per-thread store, load, contains, remove sequence is covered by `StorageProperties.StoreThenLoad` and `StorageProperties.StoreThenRemove`.
- The placeholder bodies of src/storage.hpp:21-29: `load` and `remove` return nothing and `contains` returns `false`. The model gives these operations the behaviour the tests require, not the placeholders.
- A `store` that refreshes an already cached key and then fails for capacity: this cannot occur. The capacity check comes first, and a cached key is always a stored key, so re-storing it never fails. In the model a failed `store` changes nothing at all.
- The position index that makes promotion constant-time, and the hashing of `unordered_map`: the recency list is a Dafny sequence and the maps are Dafny maps. Promotion splices the sequence. This changes running time, not behaviour.
- `size_t` width: capacities are unbounded naturals. No capacity in the tests is near the bound.
- A cache size of zero: the test suite never builds one. The model accepts it, since only `cache_size >= storage_size` is rejected, and such a cache never holds a key.
- tests/constants.hpp is not part of this model: the scenarios use its string values ("cat", "meow", "meoooow", "dog", "wof", "bird", "ur") directly.
- The gtest `main`, the assertion macros and `<iostream>`: test plumbing with no behaviour of the storage.
- TestScenarios.InvalidStore: stated on the empty bounded dictionary of size 2 rather than on constructed storage; `TestScenarios.FreshStorageReplies` shows that freshly built storage replies exactly as that dictionary does, so computing the scenario through the cache as well would add nothing observable.
- TestScenarios.StoreLoad: stated on the empty bounded dictionary of size 100 rather than on constructed storage; `TestScenarios.FreshStorageReplies` shows that freshly built storage replies exactly as that dictionary does, so computing the scenario through the cache as well would add nothing observable.
- TestScenarios.RemoveContains: stated on the empty bounded dictionary of size 100 rather than on constructed storage; `TestScenarios.FreshStorageReplies` shows that freshly built storage replies exactly as that dictionary does, so computing the scenario through the cache as well would add nothing observable.
- TestScenarios.UnexistentLoadAndRemove: stated on the empty bounded dictionary of size 10 rather than on constructed storage; `TestScenarios.FreshStorageReplies` shows that freshly built storage replies exactly as that dictionary does, so computing the scenario through the cache as well would add nothing observable.
- TestScenarios.UnexistentRemove: stated on the empty bounded dictionary of size 10 rather than on constructed storage; `TestScenarios.FreshStorageReplies` shows that freshly built storage replies exactly as that dictionary does, so computing the scenario through the cache as well would add nothing observable.
