/**
 * The shapes of src/types.ts: entries, configuration, `set` options and finders.
 * JavaScript numbers that may be `Infinity` are split into a finite case and an
 * explicit infinite one; optional fields are `Option`s (`None` is `undefined`).
 */
module CacheTypes {
  import opened Wrappers

  /** A duration in milliseconds (`cacheTime`); `Forever` is JavaScript's `Infinity`. */
  datatype Ttl = Millis(ms: nat) | Forever

  /** An absolute timestamp in milliseconds (`expiresAt`); `Infinite` is `Infinity`. */
  datatype Expiry = Finite(t: int) | Infinite

  /**
   * `DynCacheEntry`: the caller's original key, the value, the tags and the expiry.
   * `cacheTime` and `refresh` are declared by the type but are `undefined` unless
   * something fills them in.
   */
  datatype Entry<K, V> = Entry(
    key: K,
    value: V,
    tags: seq<string>,
    expiresAt: Expiry,
    cacheTime: Option<Ttl>,
    refresh: Option<bool>)

  /** `DynCacheConfig`, restricted to the default time-to-live. */
  datatype Config = Config(cacheTime: Option<Ttl>)

  /** `SetOptions`; a call without options is the value with every field `None`. */
  datatype SetOptions = SetOptions(tags: Option<seq<string>>, cacheTime: Option<Ttl>, refresh: Option<bool>)

  /**
   * `EntryFinder`: either a predicate over entries, or criteria over the caller's keys
   * (compared after hashing), `someTag` and `everyTag`, each of which may be absent.
   */
  datatype Finder<!K, !V> =
    | ByPredicate(test: Entry<K, V> -> bool)
    | ByCriteria(keys: Option<seq<K>>, someTag: Option<seq<string>>, everyTag: Option<seq<string>>)
}
