/**
 * The default in-memory engine (`MemoryEngine` in src/memory-engine.ts): a plain
 * JavaScript object used as a dictionary. Such an object enumerates its own property
 * names in insertion order, so the store keeps that order next to the values.
 */
module MemoryEngine {
  import opened Wrappers
  import opened Seqs
  import EngineContract

  /** A dictionary object: property names in insertion order, and the value of each. */
  datatype Object<V> = Object(keys: seq<string>, values: map<string, V>) {

    /** Every stored name is listed exactly once and nothing else is listed. */
    predicate Valid() {
      && NoDuplicates(keys)
      && (forall k :: k in values ==> k in keys)
      && (forall k :: k in keys ==> k in values)
    }
  }

  /** The reachable states of an engine. */
  type Store<V> = o: Object<V> | o.Valid() witness Object([], map[])

  /** `new MemoryEngine()`: nothing stored. */
  function Empty<V>(): (e: Store<V>)
    ensures e.values == map[]
    ensures e.keys == []
  {
    Object([], map[])
  }

  /** `setValue`: assigning a property; a new name goes last, an existing one keeps its place. */
  function SetValue<V>(e: Store<V>, key: string, value: V): (r: Store<V>)
    ensures EngineContract.SetValueSpec(e.values, key, value, r.values)
    ensures key in e.values ==> r.keys == e.keys
    ensures key !in e.values ==> r.keys == e.keys + [key]
  {
    if key in e.values then Object(e.keys, e.values[key := value])
    else Object(e.keys + [key], e.values[key := value])
  }

  /** `getValue`: reading a property; a missing one reads as `undefined`. */
  function GetValue<V>(e: Store<V>, key: string): (r: Option<V>)
    ensures EngineContract.GetValueSpec(e.values, key, r)
  {
    if key in e.values then Some(e.values[key]) else None
  }

  /** `allKeys`: `Object.keys`, the own property names in insertion order. */
  function AllKeys<V>(e: Store<V>): (ks: seq<string>)
    ensures EngineContract.AllKeysSpec(e.values, ks)
    ensures NoDuplicates(ks)
  {
    e.keys
  }

  /** `remove`: `delete` of a property; deleting a missing one does nothing. */
  function Remove<V>(e: Store<V>, key: string): (r: Store<V>)
    ensures EngineContract.RemoveSpec(e.values, key, r.values)
    ensures key !in e.values ==> r == e
  {
    Object(Without(e.keys, key), e.values - {key})
  }

  /** A store holding no values lists no keys. */
  lemma NothingStoredNothingListed<V>(e: Store<V>)
    requires e.values == map[]
    ensures e.keys == []
  {
    HeadIsMember(e.keys);
  }

  /** After `setValue(k, v)`, `getValue(k)` is `v` and every other key reads as before. */
  lemma SetThenGet<V>(e: Store<V>, key: string, value: V, other: string)
    ensures GetValue(SetValue(e, key, value), key) == Some(value)
    ensures other != key ==> GetValue(SetValue(e, key, value), other) == GetValue(e, other)
  {
  }

  /** Overwriting a stored key neither duplicates nor reorders it in `allKeys`. */
  lemma OverwriteKeepsKeys<V>(e: Store<V>, key: string, value: V)
    requires key in e.values
    ensures AllKeys(SetValue(e, key, value)) == AllKeys(e)
  {
  }

  /** After `remove(k)`, `getValue(k)` is `undefined` and every other key reads as before. */
  lemma RemoveThenGet<V>(e: Store<V>, key: string, other: string)
    ensures GetValue(Remove(e, key), key) == None
    ensures other != key ==> GetValue(Remove(e, key), other) == GetValue(e, other)
  {
  }
}
