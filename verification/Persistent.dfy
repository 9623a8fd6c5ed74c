// The two-level program cache: a local cache with expiry times over a store that may fail.
module Persistent {
  import opened Values
  import opened Lru
  import opened Snapshot

  // A point in time; 0 is the zero time.
  type Time = nat

  datatype StoredEntry = StoredEntry(key: string, createdAt: Time, expiresAt: Time, compiled: CompiledSnapshot)

  type Entries = map<string, StoredEntry>

  // What becomes of a save: the entry is there, nothing changed, or nothing readable is left under the key.
  datatype SaveOutcome = Saved | Unchanged | Torn

  // How the store behaves during one operation.
  datatype Faults = Faults(load: bool, save: SaveOutcome, delete: bool)

  const NO_FAULTS := Faults(false, Saved, false)

  // The zero time never passes.
  predicate Passed(at: Time, now: Time) { at != 0 && at <= now }

  // One instance's local items, and the expiry times it keeps for them.
  datatype View = View(items: seq<Item<Compiled>>, expiry: map<string, Time>)

  datatype Outcome = Outcome(view: View, store: Option<Entries>, hit: Option<Compiled>)

  function Forgotten(v: View, key: string): View {
    View(Without(v.items, key), v.expiry - {key})
  }

  function Remembered(v: View, capacity: nat, key: string, c: Compiled, at: Time): View {
    View(After(v.items, capacity, Op.Set(key, c)), v.expiry[key := at])
  }

  function AfterDelete(store: Entries, key: string, f: Faults): Entries {
    if f.delete then store else store - {key}
  }

  function AfterSave(store: Entries, e: StoredEntry, f: Faults): Entries {
    match f.save
    case Saved => store[e.key := e]
    case Unchanged => store
    case Torn => store - {e.key}
  }

  // The local part of a lookup.
  function LookLocally(v: View, capacity: nat, key: string, now: Time): (View, Option<Compiled>) {
    var touched := v.(items := After(v.items, capacity, Op.Get(key)));
    match Find(v.items, key)
    case None => (touched, None)
    case Some(c) =>
      if key in v.expiry && Passed(v.expiry[key], now) then (Forgotten(touched, key), None) else (touched, Some(c))
  }

  // The rest of a lookup that found nothing usable locally.
  function LookInStore(v: View, capacity: nat, store: Entries, key: string, now: Time, f: Faults): Outcome {
    if f.load || key !in store then Outcome(v, Some(store), None)
    else if Passed(store[key].expiresAt, now) || RestoreCompiled(store[key].compiled).Err? then
      Outcome(v, Some(AfterDelete(store, key, f)), None)
    else
      var c := RestoreCompiled(store[key].compiled).value;
      Outcome(Remembered(v, capacity, key, c, store[key].expiresAt), Some(store), Some(c))
  }

  function Lookup(v: View, capacity: nat, store: Option<Entries>, key: string, now: Time, f: Faults): Outcome {
    var (v', hit) := LookLocally(v, capacity, key, now);
    if hit.Some? || store.None? then Outcome(v', store, hit) else LookInStore(v', capacity, store.value, key, now, f)
  }

  function Put(v: View, capacity: nat, ttl: nat, store: Option<Entries>, key: string, c: Compiled, now: Time,
               f: Faults): Outcome {
    var e := StoredEntry(key, now, now + ttl, SnapshotCompiled(c));
    Outcome(Remembered(v, capacity, key, c, now + ttl),
            if store.None? then None else Some(AfterSave(store.value, e, f)), None)
  }

  function Invalidated(v: View, store: Option<Entries>, key: string, f: Faults): Outcome {
    Outcome(Forgotten(v, key), if store.None? then None else Some(AfterDelete(store.value, key, f)), None)
  }

  // The store, as far as its users can tell.
  class ProgramStore {
    var entries: Entries

    constructor ()
      ensures entries == map[]
    {
      entries := map[];
    }

    // A load that fails and a load that finds nothing look the same to the caller below.
    method Load(key: string, f: Faults) returns (ok: bool, found: Option<StoredEntry>)
      ensures ok == !f.load
      ensures found == if !f.load && key in entries then Some(entries[key]) else None
    {
      return !f.load, if !f.load && key in entries then Some(entries[key]) else None;
    }

    method Save(e: StoredEntry, f: Faults)
      modifies this
      ensures entries == AfterSave(old(entries), e, f)
    {
      match f.save {
        case Saved => entries := entries[e.key := e];
        case Unchanged =>
        case Torn => entries := entries - {e.key};
      }
    }

    method Delete(key: string, f: Faults) returns (ok: bool)
      modifies this
      ensures entries == AfterDelete(old(entries), key, f) && ok == !f.delete
    {
      if !f.delete { entries := entries - {key}; }
      return !f.delete;
    }
  }

  const DEFAULT_CAPACITY := 1024

  const DEFAULT_TTL: nat := 86_400_000_000_000

  class PersistentProgramCache {
    const store: ProgramStore?
    const local: LruProgramCache<Compiled>
    const ttl: nat
    var localExpiry: map<string, Time>
    var invalidations: nat

    ghost predicate Valid()
      reads this, local
    {
      local.Valid() && ttl > 0
    }

    ghost function Viewed(): View
      reads this, local, local.order
    {
      View(local.Contents(), localExpiry)
    }

    ghost function StoreEntries(): Option<Entries>
      reads this, store
    {
      if store == null then None else Some(store.entries)
    }

    // Without a local cache it makes one of its own.
    constructor (store: ProgramStore?, local: LruProgramCache?<Compiled>, ttl: int)
      requires local != null ==> local.Valid()
      ensures Valid() && this.store == store && this.ttl == if ttl <= 0 then 24 * 60 * 60 * 1_000_000_000 else ttl
      ensures if local != null then this.local == local
              else fresh(this.local) && this.local.capacity == 1024 && this.local.Contents() == []
      ensures localExpiry == map[] && invalidations == 0
    {
      var cache := local;
      if cache == null { cache := new LruProgramCache(DEFAULT_CAPACITY); }
      this.store, this.local := store, cache;
      this.ttl := if ttl <= 0 then DEFAULT_TTL else ttl;
      localExpiry, invalidations := map[], 0;
    }

    method DeleteLocal(key: string)
      requires Valid()
      modifies this`localExpiry, local
      ensures Valid() && Viewed() == Forgotten(old(Viewed()), key) && local.repr == old(local.repr)
    {
      local.Delete(key);
      localExpiry := localExpiry - {key};
    }

    method GetLocal(key: string, now: Time) returns (hit: Option<Compiled>)
      requires Valid()
      modifies this`localExpiry, local
      ensures Valid() && (Viewed(), hit) == LookLocally(old(Viewed()), local.capacity, key, now)
      ensures local.repr == old(local.repr)
    {
      hit := local.Get(key);
      if hit.Some? && key in localExpiry && Passed(localExpiry[key], now) {
        DeleteLocal(key);
        hit := None;
      }
    }

    method Get(key: string, now: Time, f: Faults) returns (hit: Option<Compiled>)
      requires Valid()
      modifies this, local, local.repr, store
      ensures Valid() &&
              Outcome(Viewed(), StoreEntries(), hit) ==
              Lookup(old(Viewed()), local.capacity, old(StoreEntries()), key, now, f)
      ensures fresh(local.repr - old(local.repr)) && invalidations == old(invalidations)
    {
      hit := GetLocal(key, now);
      if hit.None? && store != null { hit := GetStored(key, now, f); }
    }

    method GetStored(key: string, now: Time, f: Faults) returns (hit: Option<Compiled>)
      requires Valid() && store != null
      modifies this`localExpiry, local, local.repr, store
      ensures Valid() && fresh(local.repr - old(local.repr))
      ensures Outcome(Viewed(), StoreEntries(), hit) ==
              LookInStore(old(Viewed()), local.capacity, old(store.entries), key, now, f)
    {
      var ok, loaded := store.Load(key, f);
      if !ok || loaded.None? { return None; }
      var restored := RestoreCompiled(loaded.value.compiled);
      if Passed(loaded.value.expiresAt, now) || restored.Err? {
        var _ := store.Delete(key, f);
        return None;
      }
      Remember(key, restored.value, loaded.value.expiresAt);
      return Some(restored.value);
    }

    method Remember(key: string, c: Compiled, at: Time)
      requires Valid()
      modifies this`localExpiry, local, local.repr
      ensures Valid() && Viewed() == Remembered(old(Viewed()), local.capacity, key, c, at) &&
              fresh(local.repr - old(local.repr))
    {
      local.Set(key, c);
      localExpiry := localExpiry[key := at];
    }

    method Set(key: string, c: Compiled, now: Time, f: Faults)
      requires Valid()
      modifies this, local, local.repr, store
      ensures Valid() && invalidations == old(invalidations) && fresh(local.repr - old(local.repr))
      ensures Outcome(Viewed(), StoreEntries(), None) ==
              Put(old(Viewed()), local.capacity, ttl, old(StoreEntries()), key, c, now, f)
    {
      Remember(key, c, now + ttl);
      if store != null {
        store.Save(StoredEntry(key, now, now + ttl, SnapshotCompiled(c)), f);
      }
    }

    method Invalidate(key: string, f: Faults) returns (ok: bool)
      requires Valid()
      modifies this, local, store
      ensures Valid() && invalidations == old(invalidations) + 1 && ok == (store == null || !f.delete)
      ensures Outcome(Viewed(), StoreEntries(), None) == Invalidated(old(Viewed()), old(StoreEntries()), key, f)
      ensures local.repr == old(local.repr)
    {
      invalidations := invalidations + 1;
      DeleteLocal(key);
      ok := true;
      if store != null { ok := store.Delete(key, f); }
    }
  }
}
