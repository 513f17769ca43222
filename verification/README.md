# dyncache in Dafny

A model of `DynCache`, the in-process key/value cache in `src/dyn-cache.ts`. The cache hashes
caller keys to string identifiers with `stable-hash`. It stores entries (key, value, tags,
expiry) in a pluggable engine. It hides expired entries lazily on read, and it answers tag/key
queries (`find`). The model covers the engine contract in `src/types.ts` and the default
`MemoryEngine` of `src/memory-engine.ts`.

Modules, one per file:

- `Wrappers` (`wrappers.dfy`): `Option`. JavaScript's `undefined` is `None`.
- `Seqs` (`seqs.dfy`): `NoDuplicates`, `Without`, and `Filter` (JavaScript's `Array.filter`).
- `EngineContract` (`engine_contract.dfy`): the `DynCacheEngine` interface. Each of its four
  operations has a ghost predicate that states its promise over the map from identifier to value.
- `MemoryEngine` (`memory_engine.dfy`): the default engine. It is a JavaScript object used as a
  dictionary, modelled as its property names in insertion order plus a map. A subset type keeps
  the two in step.
- `CacheTypes` (`cache_types.dfy`): entries, configuration, `SetOptions` and `EntryFinder`. A
  JavaScript number that may be `Infinity` is split into a finite case and an explicit infinite
  case: `Ttl = Millis(nat) | Forever` and `Expiry = Finite(int) | Infinite`.
- `DynCache` (`dyn_cache.dfy`): the cache as the code is written.
- `Intended` (`intended.dfy`): the cache as the documentation in `src/types.ts` describes it.
  It corrects the four places listed under "## Findings".

The clock is an explicit parameter `now`. The `stable-hash` normaliser is a parameter
`hash: K -> string`. Nothing is assumed about `hash`, not even injectivity. Any operation that
reaches `remove` returns the cache state together with its result. In `DynCache` that state is
always the input state, because `remove` never calls the engine as written. The ghost predicate
`DynCache.WellKeyed` says that every entry is stored under the hash of its own key. `set` and
`clear` preserve it in both modules, and so does the corrected `remove`. The `Intended` eviction
proofs rely on it.

Where the documentation and the code disagree, the `DynCache` module follows the code. The four
disagreements are listed under "## Findings". Each one has an as-written lemma in `DynCache` and a
corrected member in `Intended`. `Intended` is a complete cache built from the corrected
definitions. It shares `has`, `clear`, the expiry test, `someTag` and `keys` with `DynCache`.

## Model

| member | source | states |
|---|---|---|
| `MemoryEngine.Empty` | src/memory-engine.ts:3-4 | a new engine stores nothing and lists no keys |
| `MemoryEngine.SetValue` | src/memory-engine.ts:6-8 | meets the `setValue` contract: the key now holds the value and every other key is untouched; an existing name keeps its place in the key order, a new one goes last |
| `MemoryEngine.GetValue` | src/memory-engine.ts:10-12 | meets the `getValue` contract: the stored value, or `undefined` exactly when the key is not stored |
| `MemoryEngine.AllKeys` | src/memory-engine.ts:14-16 | meets the `allKeys` contract: lists exactly the stored keys, each once |
| `MemoryEngine.Remove` | src/memory-engine.ts:18-20 | meets the `remove` contract: the key is gone and every other key is untouched; removing a missing key leaves the engine as it was |
| `MemoryEngine.SetThenGet` | src/types.ts:2-9 | after `setValue(k, v)`, `getValue(k)` is `v` and every other key reads as before |
| `MemoryEngine.RemoveThenGet` | src/types.ts:6-17 | after `remove(k)`, `getValue(k)` is `undefined` and every other key reads as before |
| `MemoryEngine.OverwriteKeepsKeys` | src/memory-engine.ts:6-16 | overwriting a stored key neither duplicates nor moves it in `allKeys` |
| `MemoryEngine.NothingStoredNothingListed` | src/types.ts:10-13 | an engine holding no values lists no keys |
| `DynCache.New` | src/dyn-cache.ts:17-21 | the cache uses the configured engine if one is given, else an empty in-memory engine |
| `DynCache.ResolveTtl` | src/dyn-cache.ts:54 | the time-to-live in effect is never 0; a non-zero per-call `cacheTime` takes precedence; otherwise a non-zero configured one applies; otherwise it is `Infinity` |
| `DynCache.PerCallTtlWins` | src/dyn-cache.ts:54-59 | a non-zero per-call `cacheTime` of n gives `expiresAt = now + n` whatever the configuration; `Infinity` gives no expiry |
| `DynCache.ConfigTtlIsDefault` | src/dyn-cache.ts:54-59 | without a truthy per-call `cacheTime`, a configured non-zero n gives `expiresAt = now + n` |
| `DynCache.UnsetTtlNeverExpires` | src/dyn-cache.ts:54-59 | with neither a per-call nor a configured finite non-zero time-to-live, the entry never expires ("0 disables" for the configuration) |
| `DynCache.ZeroPerCallFallsThrough` | src/dyn-cache.ts:54 | a per-call `cacheTime: 0` under a configured 1000 ms still expires after 1000 ms |
| `DynCache.Set` | src/dyn-cache.ts:52-61 | stores under the hash of the key an entry with that key, value and tags (none if not given), leaving `cacheTime` and `refresh` unset; every other identifier is unchanged |
| `DynCache.SetLastWriteWins` | src/dyn-cache.ts:52-61 | a second `set` of the same key gives the same cache as the second `set` alone: nothing of the earlier entry is merged |
| `DynCache.ExpiryIsMonotone` | src/dyn-cache.ts:33 | an expired entry stays expired as the clock advances |
| `DynCache.LiveUntilExpiry` | src/dyn-cache.ts:33 | an entry is live at exactly its expiry time, and an entry with no expiry is always live |
| `DynCache.ExpiredExactlyAfterExpiry` | src/dyn-cache.ts:33 | an entry with a finite, non-zero expiry is expired exactly at the times strictly after it |
| `DynCache.CheckExpired` | src/dyn-cache.ts:32-38 | reports exactly whether the entry is expired; the eviction it attempts leaves the cache unchanged |
| `DynCache.Remove` | src/dyn-cache.ts:80-82 | `remove`, as written, returns the cache it was given: engine and configuration are untouched |
| `DynCache.RemoveDoesNotEvict` | src/dyn-cache.ts:80-82 | for every cache and key, `remove(k)` leaves the whole cache as it was; in particular a stored key is still reported by `has`, with the same entry |
| `DynCache.Collect` | src/dyn-cache.ts:43-49 | the map/filter of `all` yields the live entries of the listed identifiers in order and leaves the cache unchanged |
| `DynCache.All` | src/dyn-cache.ts:40-50 | `all` yields the live stored entries in `allKeys` order and leaves the cache unchanged |
| `DynCache.AllListsLiveEntries` | src/dyn-cache.ts:40-50 | an entry is in `all()` exactly when it is stored and not expired at `now` |
| `DynCache.GetEntry` | src/dyn-cache.ts:68-73 | an entry is returned exactly when one is stored under the hash of the key and is live; it is returned unchanged, and the cache is unchanged |
| `DynCache.Get` | src/dyn-cache.ts:64-66 | a value is returned exactly when a live entry is stored under the hash of the key, and it is that entry's value |
| `DynCache.Has` | src/dyn-cache.ts:84-87 | true exactly when something is stored under the hash of the key, expired or not |
| `DynCache.GetAfterSet` | src/dyn-cache.ts:52-73 | after `set(k, v)` at t0, `get(k)` returns `v` at every time up to t0 plus the time-to-live in effect |
| `DynCache.GetAfterTtlElapsed` | src/dyn-cache.ts:52-73 | once the time-to-live has elapsed, `get(k)` returns nothing, except when the expiry is the falsy timestamp 0 |
| `DynCache.HasIgnoresExpiry` | src/dyn-cache.ts:64-87 | for an expired stored entry, `has` is true while `getEntry` and `get` return nothing |
| `DynCache.ConfiguredTtlScenario` | src/dyn-cache.ts:52-87 | with a configured `cacheTime` of 1000 ms, `set("a", v)` is readable at once, `get("a")` returns nothing 1500 ms later, and `has("a")` stays true |
| `DynCache.RemoveEach` | src/dyn-cache.ts:77 | removing each listed identifier keeps exactly the identifiers not listed, with their values |
| `DynCache.Clear` | src/dyn-cache.ts:75-78 | the engine ends holding no values and listing no keys; the configuration is kept |
| `DynCache.ClearForgetsEverything` | src/dyn-cache.ts:75-87 | after `clear`, `has` is false for every key and `all` is empty |
| `DynCache.Find` | src/dyn-cache.ts:89-115 | the results are exactly the entries of `all()` that the finder accepts, no more than `all()` has; the cache is unchanged |
| `DynCache.FindMembers` | src/dyn-cache.ts:89-115 | an entry is found exactly when it is stored, live and accepted by the finder |
| `DynCache.FindWithoutCriteriaIsEmpty` | src/dyn-cache.ts:108 | a structured finder with no `keys`, `someTag` or `everyTag` finds nothing |
| `DynCache.FindByPredicate` | src/dyn-cache.ts:101-106 | a predicate finder finds exactly the live stored entries the predicate accepts |
| `DynCache.FindByKeys` | src/dyn-cache.ts:98-109 | `keys` alone finds exactly the live entries whose key hashes like one of the listed keys |
| `DynCache.FindBySomeTag` | src/dyn-cache.ts:96-110 | `someTag` alone finds exactly the live entries that carry at least one listed tag |
| `DynCache.FindByEveryTag` | src/dyn-cache.ts:97-111 | `everyTag` alone finds exactly the live entries none of whose tags is outside the list |
| `DynCache.FindByAllCriteria` | src/dyn-cache.ts:95-112 | with `keys`, `someTag` and `everyTag` all given, an entry is found exactly when it is live and meets all three |
| `DynCache.EveryTagAcceptsUntagged` | src/dyn-cache.ts:111 | an entry without tags passes `everyTag: ["x"]` although it lacks "x" |
| `DynCache.RemoveEntries` | src/dyn-cache.ts:119 | removing each found entry's key, as written, leaves the cache unchanged |
| `DynCache.RemoveByFinder` | src/dyn-cache.ts:117-120 | `removeByFinder`, as written, leaves the cache unchanged |
| `DynCache.UpdatesKeepWellKeyed` | src/dyn-cache.ts:52-78 | `set` and `clear` keep every entry stored under the hash of its own key |
| `Intended.UpdatesKeepWellKeyed` | src/dyn-cache.ts:52-82 | the corrected `set` and `remove` keep every entry stored under the hash of its own key |
| `Intended.ResolveTtl` | src/types.ts:99-104 | a per-call `cacheTime`, zero included, takes precedence over the configured default, which applies otherwise; with neither, the time-to-live is `Infinity`, the configured default's own default (src/types.ts:26-30) |
| `Intended.Set` | src/types.ts:84-104 | stores an entry that records its time-to-live and refresh flag; its expiry is absent exactly when that time-to-live is 0 or infinite, and otherwise lies that many milliseconds after creation |
| `Intended.ZeroCacheTimeNeverExpires` | src/types.ts:99-104 | a per-call `cacheTime: 0` gives an entry that never expires, whatever the configuration |
| `Intended.ConfigZeroDisablesExpiry` | src/types.ts:26-30 | a configured `cacheTime: 0` gives entries without a per-call value no expiry |
| `Intended.Remove` | src/dyn-cache.ts:80-82 | after `remove(k)`, `has(k)` is false; every other identifier keeps its entry |
| `Intended.GetAfterRemove` | src/dyn-cache.ts:64-82 | after `remove(k)`, `get(k)` and `getEntry(k)` return nothing |
| `Intended.CheckExpired` | src/dyn-cache.ts:32-38 | reports exactly whether the entry is expired; an expired entry is removed through `remove` (its identifier gone, every other identifier kept), and a live one leaves the cache unchanged |
| `Intended.Collect` | src/dyn-cache.ts:43-49 | the map/filter of `all` returns only live entries and only removes entries |
| `Intended.All` | src/dyn-cache.ts:40-50 | `all` returns only live entries and only removes entries |
| `Intended.CollectEvictsExpired` | src/dyn-cache.ts:43-49 | over distinct stored identifiers, the live entries come back in order, and exactly the expired ones among them are evicted |
| `Intended.AllEvictsExpired` | src/dyn-cache.ts:40-50 | `all` returns the same entries as the code as written, and afterwards the engine holds exactly the entries live at `now` |
| `Intended.GetEntry` | src/dyn-cache.ts:68-73 | returns the entry exactly when it is stored and live, and then leaves the cache unchanged; otherwise it only removes; in a well-keyed cache an expired entry is evicted by the read and no other identifier is touched |
| `Intended.Get` | src/dyn-cache.ts:64-66 | a value is returned exactly when a live entry is stored under the hash of the key, and it is that entry's value; the cache afterwards is the one `getEntry` leaves |
| `Intended.EveryTagMatchesIff` | src/types.ts:61-63 | `everyTag` accepts exactly the entries that carry every listed tag |
| `Intended.Find` | src/dyn-cache.ts:89-115 | the results are exactly the entries of `all()` that the finder accepts; the cache afterwards is the one `all()` leaves |
| `Intended.FindMembers` | src/dyn-cache.ts:89-115 | in a well-keyed cache an entry is found exactly when it is stored, live and accepted by the corrected finder |
| `Intended.RemoveEntries` | src/dyn-cache.ts:119 | removing each entry's key keeps exactly the identifiers that are not the hash of a removed entry's key |
| `Intended.RemoveByFinder` | src/dyn-cache.ts:117-120 | `removeByFinder` only removes entries |
| `Intended.FoundIds` | src/dyn-cache.ts:117-119 | in a well-keyed cache, a live entry's identifier is among those `removeByFinder` deletes exactly when the finder accepts the entry |
| `Intended.RemoveByFinderKeeps` | src/dyn-cache.ts:117-120 | in a well-keyed cache, `removeByFinder` keeps exactly the entries that are live and that the finder rejects |
| `Intended.RemoveByFinderRemovesMatches` | src/dyn-cache.ts:117-120 | in a well-keyed cache, after `removeByFinder(f)`, `find(f)` at the same time finds nothing |

## Findings

| source | as written | input that shows it | evidently intended | confidence | as-written member | corrected member |
|---|---|---|---|---|---|---|
| src/dyn-cache.ts:80-82 | `remove` hashes the key and returns without calling the engine. So the eviction in `checkExpired` (line 34) and the removals in `removeByFinder` (line 119) change nothing. | any stored key K: `has(K)` is still true after `remove(K)` | `engine.remove(hash(K))` | not executed | `DynCache.RemoveDoesNotEvict` | `Intended.Remove` |
| src/dyn-cache.ts:111 | `everyTag` checks that every tag of the entry is in the list | an untagged entry passes `{everyTag: ["x"]}` | the entry carries every listed tag (src/types.ts:61-63) | not executed | `DynCache.EveryTagAcceptsUntagged` | `Intended.EveryTagMatchesIff` |
| src/dyn-cache.ts:54 | the logical-or fallback `options?.cacheTime` → `config.cacheTime` treats a per-call 0 as absent | config `cacheTime: 1000`, `set(k, v, {cacheTime: 0})`: the entry expires after 1000 ms | a per-call 0 means "never expire" and takes precedence (src/types.ts:99-104) | not executed | `DynCache.ZeroPerCallFallsThrough` | `Intended.ZeroCacheTimeNeverExpires` |
| src/dyn-cache.ts:55-60 | the stored entry has no `cacheTime` or `refresh` field | any `set`: both fields are `undefined` | the entry records its time-to-live and refresh flag (src/types.ts:84-91) | not executed | `DynCache.Set` | `Intended.Set` |

## Left out

- The background sweep (`startClearInterval`, src/dyn-cache.ts:23-30) and the `clearInterval` setting are left out. The sweep is timer-driven and runs concurrently. As written it only calls `all` and `checkExpired`, and both are modelled. Its 60000 ms default also differs from the documented 300000 ms.
- `Date.now()` is the parameter `now`.
- `stable-hash` is the parameter `hash`. The model does not assume it is injective.
- The `onSet` and `onRemove` callbacks are left out because the code never invokes them.
- Custom engines passed as `config.engine` are not modelled. The cache runs over `MemoryEngine`. Any other engine is described only by the predicates in `EngineContract`.
- JavaScript numbers are not modelled fully. NaN, negative and fractional `cacheTime` values, and arithmetic on `Infinity`, are left out. Durations are `nat`, with an explicit infinite case.
- Property order is only partly modelled. `Object.keys` lists integer-like names first, and the model ignores that. Its key order is plain insertion order. Prototype names such as `__proto__` are covered by the `MemoryEngine.GetValue` line below.
- An engine whose `getValue` returns `undefined` for a listed key would make `all` throw (src/dyn-cache.ts:45-46). `DynCache.Collect` requires every listed identifier to be stored, which `MemoryEngine` guarantees. `Intended.Collect` skips such an identifier instead.
- The `if (!entry) return;` guard in `find` (src/dyn-cache.ts:102) is not modelled, because `all` never yields an empty entry.
- DynCache.New: the source keeps a reference to `config.engine` (src/dyn-cache.ts:19). Two caches built on one engine therefore share storage, and so does a caller who keeps a handle to it: a `set` through one is seen through the other, and `clear` empties both. In the model each cache holds its own engine value, so an update to one cache never shows in another.
- MemoryEngine.GetValue: names of `Object.prototype` members are outside the model. The store is a plain `{}` (src/memory-engine.ts:4). So in the source `getValue("toString")` or `getValue("constructor")` returns the inherited member rather than `undefined`, and `setValue("__proto__", v)` replaces the prototype instead of adding a name that `allKeys` lists. The model treats these names like any other. Inside `DynCache`, identifiers come from `stable-hash`, which is not part of this model. Its published implementation wraps string keys in JSON quotes, writes numbers, booleans, `null` and `undefined` as their text, and marks objects with `#`, `@` or `~`. None of these forms is a bare prototype name, but the model does not rely on that.
- Aliasing is not modelled. `get`, `getEntry`, `all` and `find` hand out the stored entry objects themselves, and `set` stores the caller's `tags` array by reference (src/dyn-cache.ts:58). A caller that mutates either one mutates the cache. Entries here are immutable values, so the model cannot show this.
- `getValue` never modifying the store has no lemma. It holds by construction, because `MemoryEngine.GetValue` is a function that returns no new store.
- `EntryFinder.keys` is typed `string[]` in src/types.ts:56, but the code hashes its elements like caller keys. The model gives it the key type `K`.
- Sliding refresh, `GetOptions` (src/types.ts:111-118), `getOrSet` and deactivation are not modelled. They are described but have no implementation in the code.
