/**
 * The storage-engine interface the cache is written against (`DynCacheEngine` in
 * src/types.ts). An engine is seen through the finite map from identifier to stored
 * value that it represents; each predicate is the promise one engine operation makes.
 */
module EngineContract {
  import opened Wrappers

  /** `setValue(key, value)`: `key` now holds `value`; every other key is untouched. */
  ghost predicate SetValueSpec<V>(before: map<string, V>, key: string, value: V, after: map<string, V>) {
    after == before[key := value]
  }

  /** `getValue(key)`: the stored value, or `undefined` when `key` is not stored. */
  ghost predicate GetValueSpec<V>(store: map<string, V>, key: string, r: Option<V>) {
    && (r.Some? <==> key in store)
    && (r.Some? ==> r.value == store[key])
  }

  /** `allKeys()`: lists exactly the stored keys. */
  ghost predicate AllKeysSpec<V>(store: map<string, V>, keys: seq<string>) {
    forall k :: k in keys <==> k in store
  }

  /** `remove(key)`: `key` is no longer stored; every other key is untouched. */
  ghost predicate RemoveSpec<V>(before: map<string, V>, key: string, after: map<string, V>) {
    after == before - {key}
  }
}
