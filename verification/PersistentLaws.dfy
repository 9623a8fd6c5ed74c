// What the two-level cache promises: alone over a store that works it is a map with expiry times, and
// however the store fails, no instance returns anything that nobody stored or that has expired.
module PersistentLaws {
  import opened Values
  import opened Lru
  import opened LruLaws
  import opened Snapshot
  import opened Persistent

  datatype Call = Fetch(key: string) | Keep(key: string, value: Compiled) | Drop(key: string)

  // What is kept is returned as it was, or without the trees if it went through the store.
  predicate Same(returned: Compiled, kept: Compiled) {
    returned == kept || returned == Stripped(kept)
  }

  ghost predicate WithinCapacity(v: View, capacity: nat) {
    WellFormed(v.items, capacity)
  }

  function React(v: View, capacity: nat, ttl: nat, store: Option<Entries>, call: Call, now: Time, f: Faults): Outcome {
    match call
    case Fetch(k) => Lookup(v, capacity, store, k, now, f)
    case Keep(k, c) => Put(v, capacity, ttl, store, k, c, now, f)
    case Drop(k) => Invalidated(v, store, k, f)
  }

  // How each step changes the local items.

  lemma ForgottenItems(v: View, capacity: nat, key: string)
    requires WithinCapacity(v, capacity)
    ensures WithinCapacity(Forgotten(v, key), capacity)
    ensures forall it :: it in Forgotten(v, key).items <==> it in v.items && it.key != key
  {
    WithoutMembers(v.items, key);
  }

  lemma RememberedItems(v: View, capacity: nat, key: string, c: Compiled, at: Time)
    requires WithinCapacity(v, capacity)
    ensures WithinCapacity(Remembered(v, capacity, key, c, at), capacity)
    ensures forall it | it in Remembered(v, capacity, key, c, at).items ::
              it == Item(key, c) || (it in v.items && it.key != key)
  {
    WithoutMembers(v.items, key);
    AfterWellFormed(v.items, capacity, Op.Set(key, c));
    forall it | it in Remembered(v, capacity, key, c, at).items
      ensures it == Item(key, c) || (it in v.items && it.key != key)
    {
      assert it in [Item(key, c)] + Without(v.items, key);
    }
  }

  lemma LocalItems(v: View, capacity: nat, key: string, now: Time)
    requires WithinCapacity(v, capacity)
    ensures var (v', hit) := LookLocally(v, capacity, key, now);
            WithinCapacity(v', capacity) && (forall it | it in v'.items :: it in v.items) &&
            (hit.None? ==> key !in Keys(v'.items)) &&
            (hit.Some? ==> Item(key, hit.value) in v.items && !(key in v.expiry && Passed(v.expiry[key], now))) &&
            (hit.None? && key in Keys(v.items) ==> key in v.expiry && Passed(v.expiry[key], now)) &&
            (forall k | k in v.expiry && (k != key || hit.Some? || key !in Keys(v.items)) ::
               k in v'.expiry && v'.expiry[k] == v.expiry[k])
  {
    var touched := v.(items := After(v.items, capacity, Op.Get(key)));
    AfterWellFormed(v.items, capacity, Op.Get(key));
    WithoutMembers(v.items, key);
    FindKeys(v.items, key);
    ForgottenItems(touched, capacity, key);
    if Find(v.items, key).Some? { FindExact(v.items, Item(key, Find(v.items, key).value)); }
  }

  // One instance over a store that does not fail

  datatype Live = Live(value: Compiled, expiresAt: Time)

  function Expected(m: map<string, Live>, ttl: nat, call: Call, now: Time): map<string, Live> {
    match call
    case Fetch(_) => m
    case Keep(k, c) => m[k := Live(c, now + ttl)]
    case Drop(k) => m - {k}
  }

  ghost predicate ItemsAgree(v: View, m: map<string, Live>) {
    forall it | it in v.items ::
      it.key in v.expiry && it.key in m && v.expiry[it.key] == m[it.key].expiresAt && Same(it.value, m[it.key].value)
  }

  ghost predicate StoreAgrees(store: Entries, m: map<string, Live>, now: Time) {
    (forall k | k in store ::
       k in m && store[k].expiresAt == m[k].expiresAt && store[k].compiled == SnapshotCompiled(m[k].value)) &&
    (forall k | k in m :: 0 < m[k].expiresAt && (now < m[k].expiresAt ==> k in store))
  }

  ghost predicate Agrees(v: View, capacity: nat, store: Option<Entries>, m: map<string, Live>, now: Time) {
    WithinCapacity(v, capacity) && store.Some? && ItemsAgree(v, m) && StoreAgrees(store.value, m, now)
  }

  // What a lookup should return: the entry while it lives.
  ghost predicate Returns(hit: Option<Compiled>, m: map<string, Live>, key: string, now: Time) {
    if key in m && now < m[key].expiresAt then hit.Some? && Same(hit.value, m[key].value) else hit.None?
  }

  lemma FetchAgrees(v: View, capacity: nat, store: Entries, m: map<string, Live>, key: string, now: Time)
    requires Agrees(v, capacity, Some(store), m, now)
    ensures var o := Lookup(v, capacity, Some(store), key, now, NO_FAULTS);
            Agrees(o.view, capacity, o.store, m, now) && Returns(o.hit, m, key, now)
  {
    var (v', hit) := LookLocally(v, capacity, key, now);
    LocalItems(v, capacity, key, now);
    if hit.None? {
      assert ItemsAgree(v', m);
      StoredAgrees(v', capacity, store, m, key, now);
    }
  }

  lemma StoredAgrees(v: View, capacity: nat, store: Entries, m: map<string, Live>, key: string, now: Time)
    requires Agrees(v, capacity, Some(store), m, now)
    ensures var o := LookInStore(v, capacity, store, key, now, NO_FAULTS);
            Agrees(o.view, capacity, o.store, m, now) && Returns(o.hit, m, key, now)
  {
    if key in store {
      CompiledRoundTrip(m[key].value);
      RememberedItems(v, capacity, key, Stripped(m[key].value), store[key].expiresAt);
    }
  }

  lemma KeepAgrees(v: View, capacity: nat, ttl: nat, store: Entries, m: map<string, Live>, key: string, c: Compiled,
                   now: Time)
    requires Agrees(v, capacity, Some(store), m, now) && ttl > 0
    ensures var o := Put(v, capacity, ttl, Some(store), key, c, now, NO_FAULTS);
            Agrees(o.view, capacity, o.store, Expected(m, ttl, Keep(key, c), now), now)
  {
    RememberedItems(v, capacity, key, c, now + ttl);
  }

  lemma DropAgrees(v: View, capacity: nat, store: Entries, m: map<string, Live>, key: string, now: Time)
    requires Agrees(v, capacity, Some(store), m, now)
    ensures var o := Invalidated(v, Some(store), key, NO_FAULTS);
            Agrees(o.view, capacity, o.store, m - {key}, now)
  {
    ForgottenItems(v, capacity, key);
  }

  datatype Timed = Timed(call: Call, now: Time)

  datatype Run = Run(view: View, store: Option<Entries>, live: map<string, Live>, now: Time)

  function RunAlone(capacity: nat, ttl: nat, calls: seq<Timed>): Run {
    if calls == [] then Run(View([], map[]), Some(map[]), map[], 0) else
    var r := RunAlone(capacity, ttl, calls[..|calls| - 1]);
    var t := calls[|calls| - 1];
    var o := React(r.view, capacity, ttl, r.store, t.call, t.now, NO_FAULTS);
    Run(o.view, o.store, Expected(r.live, ttl, t.call, t.now), t.now)
  }

  // Over a store that works and a clock that does not run backwards, the cache is a map whose entries expire:
  // a lookup returns what was kept last, unless it was dropped since or its time has passed. Evictions
  // from the local cache cannot be seen.
  lemma {:induction false} RefinesExpiringMap(capacity: nat, ttl: nat, calls: seq<Timed>, key: string, now: Time)
    requires capacity >= 1 && ttl > 0
    requires forall i | 0 < i < |calls| :: calls[i - 1].now <= calls[i].now
    requires calls != [] ==> calls[|calls| - 1].now <= now
    ensures var r := RunAlone(capacity, ttl, calls);
            Agrees(r.view, capacity, r.store, r.live, now) &&
            Returns(Lookup(r.view, capacity, r.store, key, now, NO_FAULTS).hit, r.live, key, now)
  {
    if calls != [] {
      var before, t := calls[..|calls| - 1], calls[|calls| - 1];
      var r := RunAlone(capacity, ttl, before);
      RefinesExpiringMap(capacity, ttl, before, key, t.now);
      match t.call
      case Fetch(k) => FetchAgrees(r.view, capacity, r.store.value, r.live, k, t.now);
      case Keep(k, c) => KeepAgrees(r.view, capacity, ttl, r.store.value, r.live, k, c, t.now);
      case Drop(k) => DropAgrees(r.view, capacity, r.store.value, r.live, k, t.now);
    }
    var r := RunAlone(capacity, ttl, calls);
    FetchAgrees(r.view, capacity, r.store.value, r.live, key, now);
  }

  // Several instances over one store that may fail

  datatype Cache = Cache(capacity: nat, ttl: nat, view: View)

  datatype Written = Written(key: string, value: Compiled, expiresAt: Time)

  datatype Event = Event(who: nat, call: Call, now: Time, faults: Faults)

  // The log remembers every value any instance was ever asked to keep.
  datatype System = System(caches: seq<Cache>, store: Option<Entries>, log: set<Written>)

  ghost predicate Initial(s: System) {
    s.log == {} && (s.store.Some? ==> s.store.value == map[]) &&
    forall i | 0 <= i < |s.caches| ::
      s.caches[i].capacity >= 1 && s.caches[i].ttl > 0 && s.caches[i].view == View([], map[])
  }

  function Happen(s: System, e: Event): System
    requires e.who < |s.caches|
  {
    var c := s.caches[e.who];
    var o := React(c.view, c.capacity, c.ttl, s.store, e.call, e.now, e.faults);
    System(s.caches[e.who := c.(view := o.view)], o.store,
           if e.call.Keep? then s.log + {Written(e.call.key, e.call.value, e.now + c.ttl)} else s.log)
  }

  function HappenAll(s: System, es: seq<Event>): System
    requires forall e | e in es :: e.who < |s.caches|
    ensures |HappenAll(s, es).caches| == |s.caches|
  {
    if es == [] then s else Happen(HappenAll(s, es[..|es| - 1]), es[|es| - 1])
  }

  // Somebody kept this under the key, with this expiry time.
  ghost predicate Sourced(log: set<Written>, key: string, c: Compiled, expiresAt: Time) {
    exists w <- log :: w.key == key && w.expiresAt == expiresAt && Same(c, w.value)
  }

  ghost predicate ViewBacked(v: View, log: set<Written>) {
    forall it | it in v.items :: it.key in v.expiry && Sourced(log, it.key, it.value, v.expiry[it.key])
  }

  ghost predicate StoreBacked(store: Entries, log: set<Written>) {
    forall k | k in store ::
      exists w <- log ::
        w.key == k && w.expiresAt == store[k].expiresAt && store[k].compiled == SnapshotCompiled(w.value)
  }

  ghost predicate Backed(s: System) {
    (s.store.Some? ==> StoreBacked(s.store.value, s.log)) && (forall w <- s.log :: w.expiresAt > 0) &&
    forall i | 0 <= i < |s.caches| ::
      WithinCapacity(s.caches[i].view, s.caches[i].capacity) && s.caches[i].ttl > 0 &&
      ViewBacked(s.caches[i].view, s.log)
  }

  // A returned value was kept under the key by someone and has not expired.
  ghost predicate Fresh(hit: Option<Compiled>, log: set<Written>, key: string, now: Time) {
    hit.Some? ==> exists w <- log :: w.key == key && now < w.expiresAt && Same(hit.value, w.value)
  }

  lemma FetchBacked(v: View, capacity: nat, store: Option<Entries>, log: set<Written>, key: string, now: Time,
                    f: Faults)
    requires WithinCapacity(v, capacity) && ViewBacked(v, log) && (store.Some? ==> StoreBacked(store.value, log))
    requires forall w <- log :: w.expiresAt > 0
    ensures var o := Lookup(v, capacity, store, key, now, f);
            WithinCapacity(o.view, capacity) && ViewBacked(o.view, log) &&
            (o.store.Some? ==> StoreBacked(o.store.value, log)) &&
            Fresh(o.hit, log, key, now)
  {
    var (v', hit) := LookLocally(v, capacity, key, now);
    LocalItems(v, capacity, key, now);
    if hit.Some? {
      assert Sourced(log, key, hit.value, v.expiry[key]);
    } else if store.Some? {
      assert ViewBacked(v', log);
      StoredBacked(v', capacity, store.value, log, key, now, f);
    }
  }

  lemma StoredBacked(v: View, capacity: nat, store: Entries, log: set<Written>, key: string, now: Time, f: Faults)
    requires WithinCapacity(v, capacity) && ViewBacked(v, log) && StoreBacked(store, log) &&
             (forall w <- log :: w.expiresAt > 0)
    ensures var o := LookInStore(v, capacity, store, key, now, f);
            WithinCapacity(o.view, capacity) && ViewBacked(o.view, log) &&
            o.store.Some? && StoreBacked(o.store.value, log) &&
            Fresh(o.hit, log, key, now)
  {
    if key in store {
      var w: Written :|
        w in log && w.key == key && w.expiresAt == store[key].expiresAt &&
        store[key].compiled == SnapshotCompiled(w.value);
      CompiledRoundTrip(w.value);
      RememberedItems(v, capacity, key, Stripped(w.value), store[key].expiresAt);
      assert Sourced(log, key, Stripped(w.value), store[key].expiresAt);
    }
  }

  lemma KeepBacked(v: View, capacity: nat, ttl: nat, store: Option<Entries>, log: set<Written>, key: string,
                   c: Compiled, now: Time, f: Faults)
    requires WithinCapacity(v, capacity) && ViewBacked(v, log) && (store.Some? ==> StoreBacked(store.value, log))
    ensures var o := Put(v, capacity, ttl, store, key, c, now, f);
            var log' := log + {Written(key, c, now + ttl)};
            WithinCapacity(o.view, capacity) && ViewBacked(o.view, log') &&
            (o.store.Some? ==> StoreBacked(o.store.value, log'))
  {
    var w := Written(key, c, now + ttl);
    RememberedItems(v, capacity, key, c, now + ttl);
    assert Sourced(log + {w}, key, c, now + ttl) by { assert w in log + {w}; }
    LargerLog(v, store, log, w);
  }

  lemma LargerLog(v: View, store: Option<Entries>, log: set<Written>, w: Written)
    requires ViewBacked(v, log) && (store.Some? ==> StoreBacked(store.value, log))
    ensures ViewBacked(v, log + {w}) && (store.Some? ==> StoreBacked(store.value, log + {w}))
  {
    forall it | it in v.items ensures Sourced(log + {w}, it.key, it.value, v.expiry[it.key]) {
      var x: Written :| x in log && x.key == it.key && x.expiresAt == v.expiry[it.key] && Same(it.value, x.value);
      assert x in log + {w};
    }
    if store.Some? {
      forall k | k in store.value
        ensures exists x <- log + {w} ::
          x.key == k && x.expiresAt == store.value[k].expiresAt && store.value[k].compiled == SnapshotCompiled(x.value)
      {
        var x: Written :|
          x in log && x.key == k && x.expiresAt == store.value[k].expiresAt &&
          store.value[k].compiled == SnapshotCompiled(x.value);
        assert x in log + {w};
      }
    }
  }

  lemma DropBacked(v: View, capacity: nat, store: Option<Entries>, log: set<Written>, key: string, f: Faults)
    requires WithinCapacity(v, capacity) && ViewBacked(v, log) && (store.Some? ==> StoreBacked(store.value, log))
    ensures var o := Invalidated(v, store, key, f);
            WithinCapacity(o.view, capacity) && ViewBacked(o.view, log) &&
            (o.store.Some? ==> StoreBacked(o.store.value, log))
  {
    ForgottenItems(v, capacity, key);
  }

  lemma HappenBacked(s: System, e: Event)
    requires Backed(s) && e.who < |s.caches|
    ensures Backed(Happen(s, e))
  {
    var c := s.caches[e.who];
    match e.call
    case Fetch(k) => FetchBacked(c.view, c.capacity, s.store, s.log, k, e.now, e.faults);
    case Drop(k) => DropBacked(c.view, c.capacity, s.store, s.log, k, e.faults);
    case Keep(k, x) =>
      KeepBacked(c.view, c.capacity, c.ttl, s.store, s.log, k, x, e.now, e.faults);
      forall i | 0 <= i < |s.caches| && i != e.who
        ensures ViewBacked(s.caches[i].view, s.log + {Written(k, x, e.now + c.ttl)})
      {
        LargerLog(s.caches[i].view, None, s.log, Written(k, x, e.now + c.ttl));
      }
  }

  // Whatever the instances do and however the store fails, a hit is something some instance was asked to keep
  // under that key, and its time has not passed. The clocks of the events need not even be in order.
  lemma {:induction false} BoundedStaleness(s0: System, es: seq<Event>, who: nat, key: string, now: Time, f: Faults)
    requires Initial(s0) && who < |s0.caches| && forall e | e in es :: e.who < |s0.caches|
    ensures var s := HappenAll(s0, es);
            var c := s.caches[who];
            Backed(s) && Fresh(Lookup(c.view, c.capacity, s.store, key, now, f).hit, s.log, key, now)
  {
    if es != [] {
      var before := es[..|es| - 1];
      BoundedStaleness(s0, before, who, key, now, f);
      HappenBacked(HappenAll(s0, before), es[|es| - 1]);
    }
    var s := HappenAll(s0, es);
    FetchBacked(s.caches[who].view, s.caches[who].capacity, s.store, s.log, key, now, f);
  }

  // Neither an instance nor the store holds anything under the key.
  ghost predicate Gone(s: System, who: nat, key: string)
    requires who < |s.caches|
  {
    key !in Keys(s.caches[who].view.items) && (s.store.Some? ==> key !in s.store.value)
  }

  // Dropping a key from an instance, with the store working, leaves nothing there.
  lemma DroppedIsGone(s: System, e: Event)
    requires Backed(s) && e.who < |s.caches| && e.call.Drop? && !e.faults.delete
    ensures Gone(Happen(s, e), e.who, e.call.key)
  {
    ForgottenItems(s.caches[e.who].view, s.caches[e.who].capacity, e.call.key);
  }

  lemma FetchStaysGone(v: View, capacity: nat, store: Option<Entries>, k: string, now: Time, f: Faults, key: string)
    requires WithinCapacity(v, capacity) && (store.Some? ==> key !in store.value)
    ensures var o := Lookup(v, capacity, store, k, now, f);
            (o.store.Some? ==> key !in o.store.value) && (key !in Keys(v.items) ==> key !in Keys(o.view.items))
  {
    LocalItems(v, capacity, k, now);
    var v' := LookLocally(v, capacity, k, now).0;
    if store.Some? && k in store.value && RestoreCompiled(store.value[k].compiled).Ok? {
      RememberedItems(v', capacity, k, RestoreCompiled(store.value[k].compiled).value, store.value[k].expiresAt);
    }
  }

  lemma StaysGone(s: System, e: Event, who: nat, key: string)
    requires Backed(s) && e.who < |s.caches| && who < |s.caches| && Gone(s, who, key) &&
             !(e.call.Keep? && e.call.key == key)
    ensures Gone(Happen(s, e), who, key)
  {
    var c := s.caches[e.who];
    match e.call
    case Fetch(k) =>
      FetchStaysGone(c.view, c.capacity, s.store, k, e.now, e.faults, key);
    case Keep(k, x) => RememberedItems(c.view, c.capacity, k, x, e.now + c.ttl);
    case Drop(k) => ForgottenItems(c.view, c.capacity, k);
  }

  // After an instance has dropped a key with the store working, it misses on that key until someone keeps
  // it again, whatever else happens.
  lemma {:induction false} DroppedStaysGone(s: System, es: seq<Event>, who: nat, key: string, now: Time, f: Faults)
    requires Backed(s) && who < |s.caches| && Gone(s, who, key)
    requires forall e | e in es :: e.who < |s.caches| && !(e.call.Keep? && e.call.key == key)
    ensures var t := HappenAll(s, es);
            Backed(t) && Gone(t, who, key) &&
            Lookup(t.caches[who].view, t.caches[who].capacity, t.store, key, now, f).hit.None?
  {
    if es != [] {
      DroppedStaysGone(s, es[..|es| - 1], who, key, now, f);
      HappenBacked(HappenAll(s, es[..|es| - 1]), es[|es| - 1]);
      StaysGone(HappenAll(s, es[..|es| - 1]), es[|es| - 1], who, key);
    }
    var t := HappenAll(s, es);
    FindKeys(t.caches[who].view.items, key);
  }

  // What operations leave in the store

  // A lookup removes an entry that has expired or cannot be restored, if the store can, and nothing else; and
  // it adds nothing.
  lemma LookupCleansUp(v: View, capacity: nat, store: Entries, key: string, now: Time, f: Faults)
    requires WithinCapacity(v, capacity)
    ensures var o := Lookup(v, capacity, Some(store), key, now, f);
            o.store.Some? && (forall k | k != key :: (k in o.store.value <==> k in store)) &&
            (forall k | k in o.store.value :: k in store && o.store.value[k] == store[k]) &&
            (key in store && key !in o.store.value ==>
               Passed(store[key].expiresAt, now) || RestoreCompiled(store[key].compiled).Err?) &&
            (key in store && o.hit.None? && !f.load && !f.delete ==> key !in o.store.value)
  {
  }

  // A save that works leaves the program with its times under the key, and nothing else changed.
  lemma PutStores(v: View, capacity: nat, ttl: nat, store: Entries, key: string, c: Compiled, now: Time, f: Faults)
    requires f.save.Saved?
    ensures var o := Put(v, capacity, ttl, Some(store), key, c, now, f);
            o.store.Some? && o.store.value.Keys == store.Keys + {key} &&
            (forall k | k in store && k != key :: o.store.value[k] == store[k]) &&
            var e := o.store.value[key];
            e.key == key && e.createdAt == now && e.expiresAt == now + ttl &&
            RestoreCompiled(e.compiled) == Ok(Stripped(c))
  {
    CompiledRoundTrip(c);
  }
}
