/**
 * The cache engine `DynCache` of src/dyn-cache.ts, as the code is written.
 *
 * The clock is the parameter `now`, and the `stable-hash` normaliser is the parameter
 * `hash`, about which nothing is assumed. Operations that reach `remove` (directly or
 * through the expiry check) return the cache state next to their result, which makes
 * visible that, as written, `remove` never touches the engine.
 */
module DynCache {
  import opened Wrappers
  import opened Seqs
  import opened CacheTypes
  import MemoryEngine

  /** A cache instance: its configuration and its engine's contents. */
  datatype Cache<K, V> = Cache(config: Config, engine: MemoryEngine.Store<Entry<K, V>>)

  /** The constructor: the configured engine if one is given, else a fresh in-memory one. */
  function New<K, V>(config: Config, engine: Option<MemoryEngine.Store<Entry<K, V>>>): (c: Cache<K, V>)
    ensures c.config == config
    ensures engine.Some? ==> c.engine == engine.value
    ensures engine.None? ==> c.engine.values == map[]
  {
    Cache(config, if engine.Some? then engine.value else MemoryEngine.Empty())
  }

  /*************************** Time to live and expiry ***************************/

  /** JavaScript truthiness of an optional duration: `undefined` and `0` are falsy. */
  predicate Truthy(t: Option<Ttl>) {
    t.Some? && t.value != Millis(0)
  }

  /** `options?.cacheTime || config.cacheTime || Infinity`. */
  function ResolveTtl(perCall: Option<Ttl>, default: Option<Ttl>): (ttl: Ttl)
    ensures ttl != Millis(0)
    ensures Truthy(perCall) ==> ttl == perCall.value
    ensures !Truthy(perCall) && Truthy(default) ==> ttl == default.value
    ensures !Truthy(perCall) && !Truthy(default) ==> ttl == Forever
  {
    if Truthy(perCall) then perCall.value
    else if Truthy(default) then default.value
    else Forever
  }

  /** A time-to-live of `0` or `Infinity` never expires; any other counts from `now`. */
  function ExpiresAt(ttl: Ttl, now: int): Expiry {
    if ttl == Millis(0) || ttl == Forever then Infinite else Finite(now + ttl.ms)
  }

  /**
   * The test of `checkExpired`: `expiresAt && expiresAt < now`. A timestamp of `0`
   * is falsy in JavaScript, so such an entry never expires either.
   */
  predicate IsExpired<K, V>(now: int, e: Entry<K, V>) {
    e.expiresAt.Finite? && e.expiresAt.t != 0 && e.expiresAt.t < now
  }

  /** Liveness at `now`, as a filter argument. */
  function LiveAt<K, V>(now: int): Entry<K, V> -> bool {
    e => !IsExpired(now, e)
  }

  /** Once expired, an entry stays expired as the clock advances. */
  lemma ExpiryIsMonotone<K, V>(e: Entry<K, V>, now: int, later: int)
    requires now <= later
    requires IsExpired(now, e)
    ensures IsExpired(later, e)
  {
  }

  /** An entry is still live at exactly its expiry time, and one without expiry is always live. */
  lemma LiveUntilExpiry<K, V>(e: Entry<K, V>, now: int)
    requires e.expiresAt.Infinite? || now <= e.expiresAt.t
    ensures !IsExpired(now, e)
  {
  }

  /** An entry with a finite, non-zero expiry is expired exactly at the times after it. */
  lemma ExpiredExactlyAfterExpiry<K, V>(e: Entry<K, V>, now: int)
    requires e.expiresAt.Finite? && e.expiresAt.t != 0
    ensures IsExpired(now, e) <==> e.expiresAt.t < now
  {
  }

  /*************************** set ***************************/

  /** The entry `set` builds: tags default to none, and `cacheTime`/`refresh` stay unset. */
  function MakeEntry<K, V>(config: Config, key: K, value: V, opts: SetOptions, now: int): Entry<K, V> {
    Entry(key, value, opts.tags.GetOr([]), ExpiresAt(ResolveTtl(opts.cacheTime, config.cacheTime), now), None, None)
  }

  /** `set`: stores a new entry under the hash of `key`, replacing whatever was there. */
  function Set<K, V>(c: Cache<K, V>, hash: K -> string, key: K, value: V, opts: SetOptions, now: int): (r: Cache<K, V>)
    ensures r.config == c.config
    ensures hash(key) in r.engine.values
    ensures var e := r.engine.values[hash(key)];
      && e.key == key
      && e.value == value
      && e.tags == (if opts.tags.Some? then opts.tags.value else [])
      && e.cacheTime == None
      && e.refresh == None
    ensures forall id :: id != hash(key) ==> (id in r.engine.values <==> id in c.engine.values)
    ensures forall id :: id != hash(key) && id in c.engine.values ==> r.engine.values[id] == c.engine.values[id]
  {
    Cache(c.config, MemoryEngine.SetValue(c.engine, hash(key), MakeEntry(c.config, key, value, opts, now)))
  }

  /** The expiry `set` gives an entry, by the time-to-live in effect. */
  function StoredExpiry<K, V>(c: Cache<K, V>, hash: K -> string, key: K, value: V, opts: SetOptions, now: int): Expiry
  {
    Set(c, hash, key, value, opts, now).engine.values[hash(key)].expiresAt
  }

  /** A non-zero per-call `cacheTime` wins over the configured default. */
  lemma PerCallTtlWins<K, V>(c: Cache<K, V>, hash: K -> string, key: K, value: V, opts: SetOptions, now: int)
    requires opts.cacheTime.Some? && opts.cacheTime.value != Millis(0)
    ensures opts.cacheTime.value.Millis? ==> StoredExpiry(c, hash, key, value, opts, now) == Finite(now + opts.cacheTime.value.ms)
    ensures opts.cacheTime.value == Forever ==> StoredExpiry(c, hash, key, value, opts, now) == Infinite
  {
  }

  /** Without a (truthy) per-call `cacheTime`, the configured default applies. */
  lemma ConfigTtlIsDefault<K, V>(c: Cache<K, V>, hash: K -> string, key: K, value: V, opts: SetOptions, now: int, ms: nat)
    requires opts.cacheTime.None? || opts.cacheTime == Some(Millis(0))
    requires c.config.cacheTime == Some(Millis(ms)) && ms > 0
    ensures StoredExpiry(c, hash, key, value, opts, now) == Finite(now + ms)
  {
  }

  /** With neither a per-call nor a configured (non-zero, finite) time-to-live, the entry never expires. */
  lemma UnsetTtlNeverExpires<K, V>(c: Cache<K, V>, hash: K -> string, key: K, value: V, opts: SetOptions, now: int, later: int)
    requires opts.cacheTime.None? || opts.cacheTime == Some(Millis(0))
    requires c.config.cacheTime.None? || c.config.cacheTime.value in {Millis(0), Forever}
    ensures StoredExpiry(c, hash, key, value, opts, now) == Infinite
    ensures !IsExpired(later, Set(c, hash, key, value, opts, now).engine.values[hash(key)])
  {
  }

  /**
   * A per-call `cacheTime` of 0 is documented as "never expire" and as taking
   * precedence over the configuration, but `||` lets it fall through to a configured
   * default of 1000 ms: the entry expires.
   */
  lemma ZeroPerCallFallsThrough<K, V>(hash: K -> string, key: K, value: V, now: int)
    ensures var c := New<K, V>(Config(Some(Millis(1000))), None);
      var opts := SetOptions(None, Some(Millis(0)), None);
      && StoredExpiry(c, hash, key, value, opts, now) == Finite(now + 1000)
      && (now + 1000 != 0 ==> IsExpired(now + 1001, Set(c, hash, key, value, opts, now).engine.values[hash(key)]))
  {
  }

  /** A second `set` of the same key replaces the first completely: no tags or expiry are merged. */
  lemma SetLastWriteWins<K, V>(c: Cache<K, V>, hash: K -> string, key: K, v1: V, o1: SetOptions, t1: int, v2: V, o2: SetOptions, t2: int)
    ensures Set(Set(c, hash, key, v1, o1, t1), hash, key, v2, o2, t2) == Set(c, hash, key, v2, o2, t2)
  {
  }

  /*************************** remove and the expiry check ***************************/

  /** `remove`, as written: it computes the hash and returns without calling the engine. */
  function Remove<K, V>(c: Cache<K, V>, hash: K -> string, key: K): (r: Cache<K, V>)
    ensures r == c
  {
    var id := hash(key);
    c
  }

  /** `remove` changes nothing; in particular a stored key stays stored with the same entry. */
  lemma RemoveDoesNotEvict<K, V>(c: Cache<K, V>, hash: K -> string, key: K)
    ensures Remove(c, hash, key) == c
    ensures Has(c, hash, key) ==> Has(Remove(c, hash, key), hash, key)
    ensures Has(c, hash, key) ==> Remove(c, hash, key).engine.values[hash(key)] == c.engine.values[hash(key)]
  {
  }

  /** `checkExpired`: reports whether `e` is expired; the eviction it attempts changes nothing. */
  function CheckExpired<K, V>(c: Cache<K, V>, hash: K -> string, now: int, e: Entry<K, V>): (r: (bool, Cache<K, V>))
    ensures r.0 <==> IsExpired(now, e)
    ensures r.1 == c
  {
    if IsExpired(now, e) then (true, Remove(c, hash, e.key)) else (false, c)
  }

  /*************************** reads ***************************/

  /** The entries stored under `ids`, in that order. */
  function Lookup<K, V>(values: map<string, Entry<K, V>>, ids: seq<string>): (r: seq<Entry<K, V>>)
    requires forall id :: id in ids ==> id in values
    ensures |r| == |ids|
    ensures forall i :: 0 <= i < |ids| ==> r[i] == values[ids[i]]
  {
    if ids == [] then [] else [values[ids[0]]] + Lookup(values, ids[1..])
  }

  /** The `map`/`filter` of `all` over a snapshot of identifiers, threading the cache through each check. */
  function Collect<K, V>(c: Cache<K, V>, hash: K -> string, now: int, ids: seq<string>): (r: (seq<Entry<K, V>>, Cache<K, V>))
    requires forall id :: id in ids ==> id in c.engine.values
    ensures r.1 == c
    ensures r.0 == Filter(Lookup(c.engine.values, ids), LiveAt(now))
    decreases |ids|
  {
    if ids == [] then ([], c)
    else
      var entry := MemoryEngine.GetValue(c.engine, ids[0]).value;
      var (expired, c1) := CheckExpired(c, hash, now, entry);
      var (rest, c2) := Collect(c1, hash, now, ids[1..]);
      assert Lookup(c.engine.values, ids)[1..] == Lookup(c.engine.values, ids[1..]);
      if expired then (rest, c2) else ([entry] + rest, c2)
  }

  /** `all`: the stored entries that are live at `now`, in `allKeys` order; nothing is evicted. */
  function All<K, V>(c: Cache<K, V>, hash: K -> string, now: int): (r: (seq<Entry<K, V>>, Cache<K, V>))
    ensures r.1 == c
    ensures r.0 == Filter(Lookup(c.engine.values, c.engine.keys), LiveAt(now))
  {
    Collect(c, hash, now, MemoryEngine.AllKeys(c.engine))
  }

  /** `all` returns exactly the stored entries that are not expired at `now`. */
  lemma AllListsLiveEntries<K, V>(c: Cache<K, V>, hash: K -> string, now: int)
    ensures forall e :: e in All(c, hash, now).0 <==> e in c.engine.values.Values && !IsExpired(now, e)
  {
    var values := c.engine.values;
    var stored := Lookup(values, c.engine.keys);
    var live := All(c, hash, now).0;
    forall e | e in live
      ensures e in values.Values && !IsExpired(now, e)
    {
      var i :| 0 <= i < |live| && live[i] == e;
      assert e in stored && LiveAt(now)(e);
      var j :| 0 <= j < |stored| && stored[j] == e;
      assert values[c.engine.keys[j]] == e;
    }
    forall e | e in values.Values && !IsExpired(now, e)
      ensures e in live
    {
      var id :| id in values && values[id] == e;
      var j :| 0 <= j < |c.engine.keys| && c.engine.keys[j] == id;
      assert stored[j] == e && LiveAt(now)(stored[j]);
    }
  }

  /** `getEntry`: the entry under the hash of `key` if there is one and it is live at `now`. */
  function GetEntry<K, V>(c: Cache<K, V>, hash: K -> string, key: K, now: int): (r: (Option<Entry<K, V>>, Cache<K, V>))
    ensures r.1 == c
    ensures r.0.Some? <==> hash(key) in c.engine.values && !IsExpired(now, c.engine.values[hash(key)])
    ensures r.0.Some? ==> r.0.value == c.engine.values[hash(key)]
  {
    match MemoryEngine.GetValue(c.engine, hash(key))
    case None => (None, c)
    case Some(entry) =>
      var (expired, c1) := CheckExpired(c, hash, now, entry);
      if expired then (None, c1) else (Some(entry), c1)
  }

  /** `get`: the value of the live entry under the hash of `key`, if any. */
  function Get<K, V>(c: Cache<K, V>, hash: K -> string, key: K, now: int): (r: (Option<V>, Cache<K, V>))
    ensures r.1 == c
    ensures r.0.Some? <==> hash(key) in c.engine.values && !IsExpired(now, c.engine.values[hash(key)])
    ensures r.0.Some? ==> r.0.value == c.engine.values[hash(key)].value
  {
    var (entry, c1) := GetEntry(c, hash, key, now);
    (if entry.Some? then Some(entry.value.value) else None, c1)
  }

  /** `has`: whether anything is stored under the hash of `key`, expired or not. */
  function Has<K, V>(c: Cache<K, V>, hash: K -> string, key: K): (r: bool)
    ensures r <==> hash(key) in c.engine.values
  {
    MemoryEngine.GetValue(c.engine, hash(key)).Some?
  }

  /** After `set(key, value)` at `t0`, `get(key)` returns `value` at every time up to the expiry. */
  lemma GetAfterSet<K, V>(c: Cache<K, V>, hash: K -> string, key: K, value: V, opts: SetOptions, t0: int, now: int)
    requires ResolveTtl(opts.cacheTime, c.config.cacheTime).Millis? ==> now <= t0 + ResolveTtl(opts.cacheTime, c.config.cacheTime).ms
    ensures Get(Set(c, hash, key, value, opts, t0), hash, key, now).0 == Some(value)
  {
  }

  /** Once the time-to-live has elapsed, `get` reports nothing (unless the expiry is the falsy timestamp 0). */
  lemma GetAfterTtlElapsed<K, V>(c: Cache<K, V>, hash: K -> string, key: K, value: V, opts: SetOptions, t0: int, now: int)
    requires ResolveTtl(opts.cacheTime, c.config.cacheTime).Millis?
    requires var ms := ResolveTtl(opts.cacheTime, c.config.cacheTime).ms; t0 + ms < now && t0 + ms != 0
    ensures Get(Set(c, hash, key, value, opts, t0), hash, key, now).0 == None
  {
  }

  /** `has` skips the expiry check: an expired entry is still reported while `get` hides it. */
  lemma HasIgnoresExpiry<K, V>(c: Cache<K, V>, hash: K -> string, key: K, now: int)
    requires hash(key) in c.engine.values && IsExpired(now, c.engine.values[hash(key)])
    ensures Has(c, hash, key)
    ensures GetEntry(c, hash, key, now).0 == None
    ensures Get(c, hash, key, now).0 == None
  {
  }

  /**
   * With a configured `cacheTime` of 1000 ms, `set("a", v)` at t0 is readable at t0,
   * gone from `get` 1500 ms later, yet still reported by `has`.
   */
  lemma ConfiguredTtlScenario<V>(hash: string -> string, v: V, t0: int)
    requires t0 >= 0
    ensures var c := Set(New<string, V>(Config(Some(Millis(1000))), None), hash, "a", v, SetOptions(None, None, None), t0);
      && Get(c, hash, "a", t0).0 == Some(v)
      && Get(c, hash, "a", t0 + 1500).0 == None
      && Has(c, hash, "a")
  {
  }

  /*************************** clear ***************************/

  /** `keys.forEach(key => engine.remove(key))`. */
  function RemoveEach<V>(e: MemoryEngine.Store<V>, ids: seq<string>): (r: MemoryEngine.Store<V>)
    ensures forall id :: id in r.values <==> id in e.values && id !in ids
    ensures forall id :: id in r.values ==> r.values[id] == e.values[id]
    decreases |ids|
  {
    if ids == [] then e else RemoveEach(MemoryEngine.Remove(e, ids[0]), ids[1..])
  }

  /** `clear`: removes every identifier the engine lists, which leaves it empty. */
  function Clear<K, V>(c: Cache<K, V>): (r: Cache<K, V>)
    ensures r.config == c.config
    ensures r.engine.values == map[]
    ensures r.engine.keys == []
  {
    var e := RemoveEach(c.engine, MemoryEngine.AllKeys(c.engine));
    assert e.values.Keys == {};
    MemoryEngine.NothingStoredNothingListed(e);
    Cache(c.config, e)
  }

  /** After `clear`, `has` is false for every key and `all` is empty. */
  lemma ClearForgetsEverything<K, V>(c: Cache<K, V>, hash: K -> string, key: K, now: int)
    ensures !Has(Clear(c), hash, key)
    ensures All(Clear(c), hash, now).0 == []
  {
  }

  /*************************** find ***************************/

  /** The hashes of the finder's keys (the `keysToFind` set, as a sequence). */
  function HashAll<K>(hash: K -> string, keys: seq<K>): (ids: seq<string>)
    ensures |ids| == |keys|
    ensures forall i :: 0 <= i < |keys| ==> ids[i] == hash(keys[i])
  {
    seq(|keys|, i requires 0 <= i < |keys| => hash(keys[i]))
  }

  /** `tags.some(t => wanted.has(t))`. */
  predicate HasSomeTag(tags: seq<string>, wanted: seq<string>) {
    exists t :: t in tags && t in wanted
  }

  /** `tags.every(t => allowed.has(t))`: the entry's tags all occur in the list. */
  predicate TagsWithin(tags: seq<string>, allowed: seq<string>) {
    forall t :: t in tags ==> t in allowed
  }

  /** The filter callback of `find`; criteria that are all absent match nothing. */
  predicate Matches<K, V>(hash: K -> string, finder: Finder<K, V>, e: Entry<K, V>) {
    match finder
    case ByPredicate(test) => test(e)
    case ByCriteria(keys, someTag, everyTag) =>
      if keys.None? && someTag.None? && everyTag.None? then false
      else
        && (keys.None? || hash(e.key) in HashAll(hash, keys.value))
        && (someTag.None? || HasSomeTag(e.tags, someTag.value))
        && (everyTag.None? || TagsWithin(e.tags, everyTag.value))
  }

  /** The filter callback as a function value. */
  function Matcher<K, V>(hash: K -> string, finder: Finder<K, V>): Entry<K, V> -> bool {
    e => Matches(hash, finder, e)
  }

  /** `find`: the live entries of `all` that the finder accepts, in the same order. */
  function Find<K, V>(c: Cache<K, V>, hash: K -> string, finder: Finder<K, V>, now: int): (r: (seq<Entry<K, V>>, Cache<K, V>))
    ensures r.1 == c
    ensures |r.0| <= |All(c, hash, now).0|
    ensures forall i :: 0 <= i < |r.0| ==> r.0[i] in All(c, hash, now).0 && Matches(hash, finder, r.0[i])
    ensures var live := All(c, hash, now).0;
      forall i :: 0 <= i < |live| && Matches(hash, finder, live[i]) ==> live[i] in r.0
  {
    var (live, c1) := All(c, hash, now);
    assert forall i :: 0 <= i < |live| && Matches(hash, finder, live[i]) ==> Matcher(hash, finder)(live[i]);
    (Filter(live, Matcher(hash, finder)), c1)
  }

  /** An entry is found exactly when it is stored, live and accepted by the finder. */
  lemma FindMembers<K, V>(c: Cache<K, V>, hash: K -> string, finder: Finder<K, V>, now: int)
    ensures forall e :: e in Find(c, hash, finder, now).0 <==>
      e in c.engine.values.Values && !IsExpired(now, e) && Matches(hash, finder, e)
  {
    AllListsLiveEntries(c, hash, now);
    var live := All(c, hash, now).0;
    var found := Find(c, hash, finder, now).0;
    forall e | e in live && Matches(hash, finder, e)
      ensures e in found
    {
      var i :| 0 <= i < |live| && live[i] == e;
      assert Matcher(hash, finder)(live[i]);
    }
  }

  /** A structured finder with no criteria finds nothing. */
  lemma FindWithoutCriteriaIsEmpty<K, V>(c: Cache<K, V>, hash: K -> string, now: int)
    ensures Find(c, hash, ByCriteria(None, None, None), now).0 == []
  {
    var found := Find(c, hash, ByCriteria(None, None, None), now).0;
    assert |found| == 0 || Matches(hash, ByCriteria(None, None, None), found[0]);
  }

  /** A predicate finder keeps exactly the live entries the predicate accepts. */
  lemma FindByPredicate<K, V>(c: Cache<K, V>, hash: K -> string, test: Entry<K, V> -> bool, now: int)
    ensures forall e :: e in Find(c, hash, ByPredicate(test), now).0 <==>
      e in c.engine.values.Values && !IsExpired(now, e) && test(e)
  {
    FindMembers(c, hash, ByPredicate(test), now);
  }

  /** `keys` alone keeps the live entries whose key hashes like one of the listed keys. */
  lemma FindByKeys<K, V>(c: Cache<K, V>, hash: K -> string, keys: seq<K>, now: int)
    ensures forall e :: e in Find(c, hash, ByCriteria(Some(keys), None, None), now).0 <==>
      e in c.engine.values.Values && !IsExpired(now, e) && exists k :: k in keys && hash(k) == hash(e.key)
  {
    FindMembers(c, hash, ByCriteria(Some(keys), None, None), now);
    var ids := HashAll(hash, keys);
    forall e: Entry<K, V>
      ensures hash(e.key) in ids <==> exists k :: k in keys && hash(k) == hash(e.key)
    {
      if hash(e.key) in ids {
        var i :| 0 <= i < |ids| && ids[i] == hash(e.key);
        assert keys[i] in keys;
      }
      if exists k :: k in keys && hash(k) == hash(e.key) {
        var k :| k in keys && hash(k) == hash(e.key);
        var i :| 0 <= i < |keys| && keys[i] == k;
        assert ids[i] == hash(e.key);
      }
    }
  }

  /** `someTag` alone keeps the live entries carrying at least one listed tag. */
  lemma FindBySomeTag<K, V>(c: Cache<K, V>, hash: K -> string, tags: seq<string>, now: int)
    ensures forall e :: e in Find(c, hash, ByCriteria(None, Some(tags), None), now).0 <==>
      e in c.engine.values.Values && !IsExpired(now, e) && exists t :: t in e.tags && t in tags
  {
    FindMembers(c, hash, ByCriteria(None, Some(tags), None), now);
  }

  /** `everyTag` alone, as written, keeps the live entries none of whose tags is outside the list. */
  lemma FindByEveryTag<K, V>(c: Cache<K, V>, hash: K -> string, tags: seq<string>, now: int)
    ensures forall e :: e in Find(c, hash, ByCriteria(None, None, Some(tags)), now).0 <==>
      e in c.engine.values.Values && !IsExpired(now, e) && forall t :: t in e.tags ==> t in tags
  {
    FindMembers(c, hash, ByCriteria(None, None, Some(tags)), now);
  }

  /** With all three criteria given, an entry must satisfy each of them. */
  lemma FindByAllCriteria<K, V>(c: Cache<K, V>, hash: K -> string, keys: seq<K>, some: seq<string>, every: seq<string>, now: int)
    ensures forall e :: e in Find(c, hash, ByCriteria(Some(keys), Some(some), Some(every)), now).0 <==>
      && e in c.engine.values.Values
      && !IsExpired(now, e)
      && hash(e.key) in HashAll(hash, keys)
      && (exists t :: t in e.tags && t in some)
      && (forall t :: t in e.tags ==> t in every)
  {
    FindMembers(c, hash, ByCriteria(Some(keys), Some(some), Some(every)), now);
  }

  /**
   * `everyTag` is documented as "must have all of these tags", but an entry without
   * tags passes `everyTag: ["x"]`, while it lacks "x".
   */
  lemma EveryTagAcceptsUntagged<K, V>(hash: K -> string, key: K, value: V, expiresAt: Expiry)
    ensures var e := Entry(key, value, [], expiresAt, None, None);
      && Matches(hash, ByCriteria(None, None, Some(["x"])), e)
      && "x" !in e.tags
  {
  }

  /*************************** removeByFinder ***************************/

  /** `entries.forEach(entry => remove(entry.key))`. */
  function RemoveEntries<K, V>(c: Cache<K, V>, hash: K -> string, entries: seq<Entry<K, V>>): (r: Cache<K, V>)
    ensures r == c
    decreases |entries|
  {
    if entries == [] then c else RemoveEntries(Remove(c, hash, entries[0].key), hash, entries[1..])
  }

  /** `removeByFinder`, as written: it finds the entries, but removing them changes nothing. */
  function RemoveByFinder<K, V>(c: Cache<K, V>, hash: K -> string, finder: Finder<K, V>, now: int): (r: Cache<K, V>)
    ensures r == c
  {
    var (found, c1) := Find(c, hash, finder, now);
    RemoveEntries(c1, hash, found)
  }

  /*************************** key invariant ***************************/

  /** Every entry is stored under the hash of its own key. */
  ghost predicate WellKeyed<K, V>(c: Cache<K, V>, hash: K -> string) {
    forall id :: id in c.engine.values ==> hash(c.engine.values[id].key) == id
  }

  /** `set` and `clear` keep every entry under the hash of its own key. */
  lemma UpdatesKeepWellKeyed<K, V>(c: Cache<K, V>, hash: K -> string, key: K, value: V, opts: SetOptions, now: int)
    requires WellKeyed(c, hash)
    ensures WellKeyed(Set(c, hash, key, value, opts, now), hash)
    ensures WellKeyed(Clear(c), hash)
  {
  }
}
