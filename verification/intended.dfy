/**
 * The cache as its documentation in src/types.ts describes it, where the code in
 * src/dyn-cache.ts departs from that description:
 *  - `remove` deletes the entry from the engine, so the expiry check evicts what it
 *    finds expired and `removeByFinder` deletes what it finds;
 *  - a per-call `cacheTime` of 0 means "never expire" and takes precedence;
 *  - the stored entry records its `cacheTime` and `refresh` setting;
 *  - `everyTag` requires the entry to carry every listed tag.
 * Everything else (`has`, `clear`, the expiry test, `someTag` and `keys`) is shared
 * with the model of the code as written.
 */
module Intended {
  import opened Wrappers
  import opened Seqs
  import opened CacheTypes
  import MemoryEngine
  import DynCache

  type Cache<K, V> = DynCache.Cache<K, V>

  /*************************** set ***************************/

  /** A per-call `cacheTime`, zero included, takes precedence over the configured default. */
  function ResolveTtl(perCall: Option<Ttl>, default: Option<Ttl>): (ttl: Ttl)
    ensures perCall.Some? ==> ttl == perCall.value
    ensures perCall.None? && default.Some? ==> ttl == default.value
    ensures perCall.None? && default.None? ==> ttl == Forever
  {
    if perCall.Some? then perCall.value
    else if default.Some? then default.value
    else Forever
  }

  /**
   * The relation between an entry's recorded `cacheTime` and its expiry, for an entry
   * created at `created`: a time-to-live of 0 or infinity never expires, any other one
   * expires that many milliseconds after creation.
   */
  ghost predicate ExpiryConsistent<K, V>(e: Entry<K, V>, created: int) {
    && e.cacheTime.Some?
    && (e.expiresAt.Infinite? <==> e.cacheTime.value == Millis(0) || e.cacheTime.value == Forever)
    && (e.expiresAt.Finite? ==> e.cacheTime.value.Millis? && e.expiresAt.t == created + e.cacheTime.value.ms)
  }

  /** The entry `set` should build: the same as written, plus its `cacheTime` and `refresh`. */
  function MakeEntry<K, V>(config: Config, key: K, value: V, opts: SetOptions, now: int): Entry<K, V> {
    var ttl := ResolveTtl(opts.cacheTime, config.cacheTime);
    Entry(key, value, opts.tags.GetOr([]), DynCache.ExpiresAt(ttl, now), Some(ttl), Some(opts.refresh.GetOr(false)))
  }

  /** `set`: stores under the hash of `key` an entry that records its time-to-live and refresh flag. */
  function Set<K, V>(c: Cache<K, V>, hash: K -> string, key: K, value: V, opts: SetOptions, now: int): (r: Cache<K, V>)
    ensures r.config == c.config
    ensures hash(key) in r.engine.values
    ensures var e := r.engine.values[hash(key)];
      && e.key == key
      && e.value == value
      && e.tags == (if opts.tags.Some? then opts.tags.value else [])
      && e.cacheTime == Some(ResolveTtl(opts.cacheTime, c.config.cacheTime))
      && e.refresh == Some(opts.refresh.Some? && opts.refresh.value)
      && ExpiryConsistent(e, now)
    ensures forall id :: id != hash(key) ==> (id in r.engine.values <==> id in c.engine.values)
    ensures forall id :: id != hash(key) && id in c.engine.values ==> r.engine.values[id] == c.engine.values[id]
  {
    DynCache.Cache(c.config, MemoryEngine.SetValue(c.engine, hash(key), MakeEntry(c.config, key, value, opts, now)))
  }

  /** The corrected `set` and `remove` keep every entry under the hash of its own key. */
  lemma UpdatesKeepWellKeyed<K, V>(c: Cache<K, V>, hash: K -> string, key: K, value: V, opts: SetOptions, now: int)
    requires DynCache.WellKeyed(c, hash)
    ensures DynCache.WellKeyed(Set(c, hash, key, value, opts, now), hash)
    ensures DynCache.WellKeyed(Remove(c, hash, key), hash)
  {
  }

  /** A per-call `cacheTime` of 0 disables expiry whatever the configured default. */
  lemma ZeroCacheTimeNeverExpires<K, V>(c: Cache<K, V>, hash: K -> string, key: K, value: V, opts: SetOptions, now: int, later: int)
    requires opts.cacheTime == Some(Millis(0))
    ensures Set(c, hash, key, value, opts, now).engine.values[hash(key)].expiresAt == Infinite
    ensures !DynCache.IsExpired(later, Set(c, hash, key, value, opts, now).engine.values[hash(key)])
  {
  }

  /** A configured `cacheTime` of 0 disables expiry for calls that give none. */
  lemma ConfigZeroDisablesExpiry<K, V>(c: Cache<K, V>, hash: K -> string, key: K, value: V, opts: SetOptions, now: int)
    requires opts.cacheTime.None? && c.config.cacheTime == Some(Millis(0))
    ensures Set(c, hash, key, value, opts, now).engine.values[hash(key)].expiresAt == Infinite
  {
  }

  /*************************** remove and the expiry check ***************************/

  /** `remove`: deletes the identifier of `key` from the engine. */
  function Remove<K, V>(c: Cache<K, V>, hash: K -> string, key: K): (r: Cache<K, V>)
    ensures r.config == c.config
    ensures !DynCache.Has(r, hash, key)
    ensures forall id :: id != hash(key) ==> (id in r.engine.values <==> id in c.engine.values)
    ensures forall id :: id in r.engine.values ==> r.engine.values[id] == c.engine.values[id]
  {
    DynCache.Cache(c.config, MemoryEngine.Remove(c.engine, hash(key)))
  }

  /** After `remove(key)`, `get(key)` reports nothing, at any time. */
  lemma GetAfterRemove<K, V>(c: Cache<K, V>, hash: K -> string, key: K, now: int)
    ensures Get(Remove(c, hash, key), hash, key, now).0 == None
    ensures GetEntry(Remove(c, hash, key), hash, key, now).0 == None
  {
  }

  /** `checkExpired`: reports whether `e` is expired and, if so, removes it. */
  function CheckExpired<K, V>(c: Cache<K, V>, hash: K -> string, now: int, e: Entry<K, V>): (r: (bool, Cache<K, V>))
    ensures r.0 <==> DynCache.IsExpired(now, e)
    ensures !r.0 ==> r.1 == c
    ensures r.0 ==> hash(e.key) !in r.1.engine.values
    ensures r.0 ==> r.1 == Remove(c, hash, e.key)
  {
    if DynCache.IsExpired(now, e) then (true, Remove(c, hash, e.key)) else (false, c)
  }

  /*************************** reads ***************************/

  /**
   * The `map`/`filter` of `all` over a snapshot of identifiers. An identifier that is
   * gone by the time it is reached is skipped.
   */
  function Collect<K, V>(c: Cache<K, V>, hash: K -> string, now: int, ids: seq<string>): (r: (seq<Entry<K, V>>, Cache<K, V>))
    ensures r.1.config == c.config
    ensures forall id :: id in r.1.engine.values ==> id in c.engine.values && r.1.engine.values[id] == c.engine.values[id]
    ensures forall i :: 0 <= i < |r.0| ==> !DynCache.IsExpired(now, r.0[i])
    decreases |ids|
  {
    if ids == [] then ([], c)
    else
      match MemoryEngine.GetValue(c.engine, ids[0])
      case None => Collect(c, hash, now, ids[1..])
      case Some(entry) =>
        var (expired, c1) := CheckExpired(c, hash, now, entry);
        var (rest, c2) := Collect(c1, hash, now, ids[1..]);
        if expired then (rest, c2) else ([entry] + rest, c2)
  }

  /** `all`: the live entries, evicting the expired ones it meets. */
  function All<K, V>(c: Cache<K, V>, hash: K -> string, now: int): (r: (seq<Entry<K, V>>, Cache<K, V>))
    ensures r.1.config == c.config
    ensures forall id :: id in r.1.engine.values ==> id in c.engine.values && r.1.engine.values[id] == c.engine.values[id]
    ensures forall i :: 0 <= i < |r.0| ==> !DynCache.IsExpired(now, r.0[i])
  {
    Collect(c, hash, now, MemoryEngine.AllKeys(c.engine))
  }

  /** Two stores that agree on `ids` look those identifiers up alike. */
  lemma LookupAgrees<K, V>(m1: map<string, Entry<K, V>>, m2: map<string, Entry<K, V>>, ids: seq<string>)
    requires forall id :: id in ids ==> id in m1 && id in m2 && m1[id] == m2[id]
    ensures DynCache.Lookup(m1, ids) == DynCache.Lookup(m2, ids)
  {
  }

  /**
   * Over identifiers listed once each, in a store where every entry sits under the hash
   * of its own key, `Collect` returns the live entries in order and evicts exactly the
   * expired ones among the identifiers.
   */
  lemma {:induction false} CollectEvictsExpired<K, V>(c: Cache<K, V>, hash: K -> string, now: int, ids: seq<string>)
    requires DynCache.WellKeyed(c, hash)
    requires NoDuplicates(ids)
    requires forall id :: id in ids ==> id in c.engine.values
    ensures Collect(c, hash, now, ids).0 == Filter(DynCache.Lookup(c.engine.values, ids), DynCache.LiveAt(now))
    ensures forall id :: id in Collect(c, hash, now, ids).1.engine.values <==>
      id in c.engine.values && !(id in ids && DynCache.IsExpired(now, c.engine.values[id]))
    decreases |ids|
  {
    if ids != [] {
      var values := c.engine.values;
      var entry := values[ids[0]];
      var (expired, c1) := CheckExpired(c, hash, now, entry);
      var rest := ids[1..];
      assert forall id :: id in rest ==> id != ids[0] && id in ids;
      assert forall id :: id in c1.engine.values <==> id in values && !(id == ids[0] && expired);
      assert NoDuplicates(rest);
      CollectEvictsExpired(c1, hash, now, rest);
      LookupAgrees(c1.engine.values, values, rest);
      assert DynCache.Lookup(values, ids)[1..] == DynCache.Lookup(values, rest);
    }
  }

  /**
   * `all` returns the same entries as the code as written, and leaves in the engine
   * exactly the entries that are live at `now`.
   */
  lemma AllEvictsExpired<K, V>(c: Cache<K, V>, hash: K -> string, now: int)
    requires DynCache.WellKeyed(c, hash)
    ensures All(c, hash, now).0 == DynCache.All(c, hash, now).0
    ensures forall id :: id in All(c, hash, now).1.engine.values <==>
      id in c.engine.values && !DynCache.IsExpired(now, c.engine.values[id])
  {
    CollectEvictsExpired(c, hash, now, c.engine.keys);
  }

  /** `getEntry`: the live entry under the hash of `key`; an expired one is evicted. */
  function GetEntry<K, V>(c: Cache<K, V>, hash: K -> string, key: K, now: int): (r: (Option<Entry<K, V>>, Cache<K, V>))
    ensures r.0.Some? <==> hash(key) in c.engine.values && !DynCache.IsExpired(now, c.engine.values[hash(key)])
    ensures r.0.Some? ==> r.0.value == c.engine.values[hash(key)] && r.1 == c
    ensures r.0.None? && DynCache.WellKeyed(c, hash) ==> !DynCache.Has(r.1, hash, key)
    ensures r.1.config == c.config
    ensures forall id :: id in r.1.engine.values ==> id in c.engine.values && r.1.engine.values[id] == c.engine.values[id]
    ensures DynCache.WellKeyed(c, hash) ==> forall id :: id != hash(key) ==> (id in r.1.engine.values <==> id in c.engine.values)
  {
    match MemoryEngine.GetValue(c.engine, hash(key))
    case None => (None, c)
    case Some(entry) =>
      var (expired, c1) := CheckExpired(c, hash, now, entry);
      if expired then (None, c1) else (Some(entry), c1)
  }

  /** `get`: the value of the live entry under the hash of `key`, if any. */
  function Get<K, V>(c: Cache<K, V>, hash: K -> string, key: K, now: int): (r: (Option<V>, Cache<K, V>))
    ensures r.0.Some? <==> hash(key) in c.engine.values && !DynCache.IsExpired(now, c.engine.values[hash(key)])
    ensures r.0.Some? ==> r.0.value == c.engine.values[hash(key)].value
    ensures r.1 == GetEntry(c, hash, key, now).1
  {
    var (entry, c1) := GetEntry(c, hash, key, now);
    (if entry.Some? then Some(entry.value.value) else None, c1)
  }

  /*************************** find ***************************/

  /** `everyTag` as documented: the entry carries every listed tag. */
  predicate HasAllTags(tags: seq<string>, wanted: seq<string>) {
    forall t :: t in wanted ==> t in tags
  }

  /** The filter callback of `find`, with the documented `everyTag` test. */
  predicate Matches<K, V>(hash: K -> string, finder: Finder<K, V>, e: Entry<K, V>) {
    match finder
    case ByPredicate(test) => test(e)
    case ByCriteria(keys, someTag, everyTag) =>
      if keys.None? && someTag.None? && everyTag.None? then false
      else
        && (keys.None? || hash(e.key) in DynCache.HashAll(hash, keys.value))
        && (someTag.None? || DynCache.HasSomeTag(e.tags, someTag.value))
        && (everyTag.None? || HasAllTags(e.tags, everyTag.value))
  }

  /** With the documented test, `everyTag` accepts exactly the entries carrying all listed tags. */
  lemma EveryTagMatchesIff<K, V>(hash: K -> string, e: Entry<K, V>, tags: seq<string>)
    ensures Matches(hash, ByCriteria(None, None, Some(tags)), e) <==> forall t :: t in tags ==> t in e.tags
    ensures Matches(hash, ByCriteria(None, None, Some(["x"])), e) ==> "x" in e.tags
  {
  }

  /** The filter callback as a function value. */
  function Matcher<K, V>(hash: K -> string, finder: Finder<K, V>): Entry<K, V> -> bool {
    e => Matches(hash, finder, e)
  }

  /** `find`: the entries of `all` that the finder accepts, in order. */
  function Find<K, V>(c: Cache<K, V>, hash: K -> string, finder: Finder<K, V>, now: int): (r: (seq<Entry<K, V>>, Cache<K, V>))
    ensures |r.0| <= |All(c, hash, now).0|
    ensures forall i :: 0 <= i < |r.0| ==> r.0[i] in All(c, hash, now).0 && Matches(hash, finder, r.0[i])
    ensures var live := All(c, hash, now).0;
      forall i :: 0 <= i < |live| && Matches(hash, finder, live[i]) ==> live[i] in r.0
    ensures r.1 == All(c, hash, now).1
  {
    var (live, c1) := All(c, hash, now);
    assert forall i :: 0 <= i < |live| && Matches(hash, finder, live[i]) ==> Matcher(hash, finder)(live[i]);
    (Filter(live, Matcher(hash, finder)), c1)
  }

  /** In a cache whose entries sit under the hashes of their keys, `find` returns exactly the live entries the finder accepts. */
  lemma FindMembers<K, V>(c: Cache<K, V>, hash: K -> string, finder: Finder<K, V>, now: int)
    requires DynCache.WellKeyed(c, hash)
    ensures forall e :: e in Find(c, hash, finder, now).0 <==>
      e in c.engine.values.Values && !DynCache.IsExpired(now, e) && Matches(hash, finder, e)
  {
    AllEvictsExpired(c, hash, now);
    DynCache.AllListsLiveEntries(c, hash, now);
    var live := All(c, hash, now).0;
    forall e | e in live && Matches(hash, finder, e)
      ensures e in Find(c, hash, finder, now).0
    {
      var i :| 0 <= i < |live| && live[i] == e;
    }
  }

  /*************************** removeByFinder ***************************/

  /** The identifiers of the given entries' keys. */
  function KeyIds<K, V>(hash: K -> string, entries: seq<Entry<K, V>>): (ids: seq<string>)
    ensures |ids| == |entries|
    ensures forall i :: 0 <= i < |entries| ==> ids[i] == hash(entries[i].key)
  {
    seq(|entries|, i requires 0 <= i < |entries| => hash(entries[i].key))
  }

  /** `entries.forEach(entry => remove(entry.key))`. */
  function RemoveEntries<K, V>(c: Cache<K, V>, hash: K -> string, entries: seq<Entry<K, V>>): (r: Cache<K, V>)
    ensures r.config == c.config
    ensures forall id :: id in r.engine.values <==> id in c.engine.values && id !in KeyIds(hash, entries)
    ensures forall id :: id in r.engine.values ==> r.engine.values[id] == c.engine.values[id]
    decreases |entries|
  {
    if entries == [] then c
    else
      assert forall id :: id in KeyIds(hash, entries) <==> id == hash(entries[0].key) || id in KeyIds(hash, entries[1..]);
      RemoveEntries(Remove(c, hash, entries[0].key), hash, entries[1..])
  }

  /** `removeByFinder`: deletes every entry `find` returns. */
  function RemoveByFinder<K, V>(c: Cache<K, V>, hash: K -> string, finder: Finder<K, V>, now: int): (r: Cache<K, V>)
    ensures r.config == c.config
    ensures forall id :: id in r.engine.values ==> id in c.engine.values && r.engine.values[id] == c.engine.values[id]
  {
    var (found, c1) := Find(c, hash, finder, now);
    RemoveEntries(c1, hash, found)
  }

  /**
   * The identifiers `removeByFinder` deletes are those of the live entries the finder
   * accepts.
   */
  lemma FoundIds<K, V>(c: Cache<K, V>, hash: K -> string, finder: Finder<K, V>, now: int, id: string)
    requires DynCache.WellKeyed(c, hash)
    requires id in c.engine.values && !DynCache.IsExpired(now, c.engine.values[id])
    ensures id in KeyIds(hash, Find(c, hash, finder, now).0) <==> Matches(hash, finder, c.engine.values[id])
  {
    var values := c.engine.values;
    AllEvictsExpired(c, hash, now);
    DynCache.AllListsLiveEntries(c, hash, now);
    var live := All(c, hash, now).0;
    var found := Find(c, hash, finder, now).0;
    var ids := KeyIds(hash, found);
    if id in ids {
      var j :| 0 <= j < |found| && ids[j] == id;
      assert found[j] in values.Values;
      var id' :| id' in values && values[id'] == found[j];
      assert id' == id;
    }
    if Matches(hash, finder, values[id]) {
      var e := values[id];
      assert e in live;
      var i :| 0 <= i < |live| && live[i] == e;
      assert Matcher(hash, finder)(live[i]);
      var j :| 0 <= j < |found| && found[j] == e;
      assert ids[j] == id;
    }
  }

  /**
   * `removeByFinder` keeps exactly the entries that are live at `now` and that the
   * finder does not accept; the expired ones go through the expiry check.
   */
  lemma RemoveByFinderKeeps<K, V>(c: Cache<K, V>, hash: K -> string, finder: Finder<K, V>, now: int)
    requires DynCache.WellKeyed(c, hash)
    ensures forall id :: id in RemoveByFinder(c, hash, finder, now).engine.values <==>
      && id in c.engine.values
      && !DynCache.IsExpired(now, c.engine.values[id])
      && !Matches(hash, finder, c.engine.values[id])
  {
    AllEvictsExpired(c, hash, now);
    forall id | id in c.engine.values && !DynCache.IsExpired(now, c.engine.values[id])
      ensures id in KeyIds(hash, Find(c, hash, finder, now).0) <==> Matches(hash, finder, c.engine.values[id])
    {
      FoundIds(c, hash, finder, now, id);
    }
  }

  /** After `removeByFinder(finder)` at `now`, the same finder finds nothing. */
  lemma RemoveByFinderRemovesMatches<K, V>(c: Cache<K, V>, hash: K -> string, finder: Finder<K, V>, now: int)
    requires DynCache.WellKeyed(c, hash)
    ensures Find(RemoveByFinder(c, hash, finder, now), hash, finder, now).0 == []
  {
    var r := RemoveByFinder(c, hash, finder, now);
    RemoveByFinderKeeps(c, hash, finder, now);
    assert DynCache.WellKeyed(r, hash);
    AllEvictsExpired(r, hash, now);
    DynCache.AllListsLiveEntries(r, hash, now);
    forall e | e in All(r, hash, now).0
      ensures !Matches(hash, finder, e)
    {
      var id :| id in r.engine.values && r.engine.values[id] == e;
    }
    HeadIsMember(Find(r, hash, finder, now).0);
  }
}
