// What the least-recently-used cache promises over whole runs: it only returns what was stored last,
// a larger cache holds everything a smaller one does, and an item leaves only when enough others were used.
module LruLaws {
  import opened Values
  import opened Lru

  ghost predicate WellFormed<V>(l: seq<Item<V>>, capacity: nat) {
    Distinct(l) && |l| <= capacity && 1 <= capacity
  }

  ghost function Keys<V>(l: seq<Item<V>>): set<string> {
    set it | it in l :: it.key
  }

  lemma FindExact<V>(l: seq<Item<V>>, x: Item<V>)
    requires Distinct(l)
    ensures Find(l, x.key) == Some(x.value) <==> x in l
  {
    PositionFirst(l, x.key);
    if x in l {
      var i :| 0 <= i < |l| && l[i] == x;
    }
  }

  lemma FindKeys<V>(l: seq<Item<V>>, key: string)
    ensures Find(l, key).Some? <==> key in Keys(l)
  {
    PositionFirst(l, key);
    if key in Keys(l) {
      var it :| it in l && it.key == key;
      var i :| 0 <= i < |l| && l[i] == it;
    }
  }

  lemma WithoutStep<V>(l: seq<Item<V>>, key: string)
    requires l != []
    ensures Without(l, key) == if l[0].key == key then l[1..] else [l[0]] + Without(l[1..], key)
  {
    var rest := l[1..];
    var j := Position(rest, key);
    if l[0].key == key {
      assert l[..0] + l[1..] == rest;
    } else if j < |rest| {
      assert l[..j + 1] + l[j + 2..] == [l[0]] + (rest[..j] + rest[j + 1..]);
    } else {
      assert l == [l[0]] + rest;
    }
  }

  lemma WithoutMembers<V>(l: seq<Item<V>>, key: string)
    requires Distinct(l)
    ensures Distinct(Without(l, key)) && forall it :: it in Without(l, key) <==> it in l && it.key != key
    ensures |Without(l, key)| == if Find(l, key).Some? then |l| - 1 else |l|
  {
    PositionFirst(l, key);
    var i := Position(l, key);
    if i < |l| {
      DistinctDropped(l, i);
      ApartExact(l);
      ApartDropped(l, i);
      forall it | it in l && it != l[i] ensures it.key != key {
        var j :| 0 <= j < |l| && l[j] == it;
      }
    }
  }

  lemma DistinctDropped<V>(l: seq<Item<V>>, i: nat)
    requires Distinct(l) && i < |l|
    ensures Distinct(Dropped(l, i))
  {
    forall a, b | 0 <= a < b < |l| - 1 ensures Dropped(l, i)[a].key != Dropped(l, i)[b].key {
      DroppedAt(l, i, a);
      DroppedAt(l, i, b);
    }
  }

  lemma DistinctPushed<V>(w: seq<Item<V>>, it: Item<V>)
    requires Distinct(w) && forall x | x in w :: x.key != it.key
    ensures Distinct([it] + w)
  {
  }

  lemma AfterWellFormed<V>(l: seq<Item<V>>, capacity: nat, op: Op<V>)
    requires WellFormed(l, capacity)
    ensures WellFormed(After(l, capacity, op), capacity)
  {
    WithoutMembers(l, op.key);
    match op
    case Get(k) => if Find(l, k).Some? { DistinctPushed(Without(l, k), Item(k, Find(l, k).value)); }
    case Set(k, v) => DistinctPushed(Without(l, k), Item(k, v));
    case Delete(_) =>
  }

  // An operation brings in nothing but what it sets.
  lemma AfterMembers<V>(l: seq<Item<V>>, capacity: nat, op: Op<V>)
    requires WellFormed(l, capacity)
    ensures forall it | it in After(l, capacity, op) :: it in l || (op.Set? && it == Item(op.key, op.value))
  {
    WithoutMembers(l, op.key);
    if Find(l, op.key).Some? { FindExact(l, Item(op.key, Find(l, op.key).value)); }
    forall it | it in After(l, capacity, op) ensures it in l || (op.Set? && it == Item(op.key, op.value)) {
      assert it in Without(l, op.key) || it in l || !op.Set? || it == Item(op.key, op.value);
    }
  }

  lemma {:induction false} RunWellFormed<V>(l: seq<Item<V>>, capacity: nat, ops: seq<Op<V>>)
    requires WellFormed(l, capacity)
    ensures WellFormed(AfterAll(l, capacity, ops), capacity)
  {
    if ops != [] {
      RunWellFormed(l, capacity, ops[..|ops| - 1]);
      AfterWellFormed(AfterAll(l, capacity, ops[..|ops| - 1]), capacity, ops[|ops| - 1]);
    }
  }

  // The map that sets and deletes would build without any capacity.
  function LastStored<V>(ops: seq<Op<V>>): map<string, V> {
    if ops == [] then map[] else
    var m := LastStored(ops[..|ops| - 1]);
    match ops[|ops| - 1]
    case Get(_) => m
    case Set(k, v) => m[k := v]
    case Delete(k) => m - {k}
  }

  // Whatever the cache holds is what was stored last, so eviction can only turn hits into misses.
  lemma {:induction false} OnlyStored<V>(capacity: nat, ops: seq<Op<V>>)
    requires 1 <= capacity
    ensures forall it | it in AfterAll([], capacity, ops) ::
              it.key in LastStored(ops) && LastStored(ops)[it.key] == it.value
  {
    if ops != [] {
      var before, op := ops[..|ops| - 1], ops[|ops| - 1];
      var l := AfterAll([], capacity, before);
      OnlyStored(capacity, before);
      RunWellFormed([], capacity, before);
      WithoutMembers(l, op.key);
      forall it | it in After(l, capacity, op)
        ensures it.key in LastStored(ops) && LastStored(ops)[it.key] == it.value
      {
        assert it in l || it in [it] + Without(l, op.key);
      }
    }
  }

  // Inclusion

  ghost predicate Subsequence<T>(a: seq<T>, b: seq<T>) {
    a == [] || (b != [] && ((a[0] == b[0] && Subsequence(a[1..], b[1..])) || Subsequence(a, b[1..])))
  }

  lemma {:induction false} SubsequenceMembers<T>(a: seq<T>, b: seq<T>)
    requires Subsequence(a, b)
    ensures |a| <= |b| && forall x | x in a :: x in b
  {
    if a != [] {
      if a[0] == b[0] && Subsequence(a[1..], b[1..]) {
        SubsequenceMembers(a[1..], b[1..]);
        assert a == [a[0]] + a[1..] && b == [b[0]] + b[1..];
      } else {
        SubsequenceMembers(a, b[1..]);
      }
    }
  }

  lemma {:induction false} SubsequenceInit<T>(a: seq<T>, b: seq<T>)
    requires Subsequence(a, b) && a != []
    ensures b != [] && Subsequence(a[..|a| - 1], b[..|b| - 1])
  {
    if a[0] == b[0] && Subsequence(a[1..], b[1..]) {
      if |a| > 1 {
        SubsequenceInit(a[1..], b[1..]);
        assert a[..|a| - 1][1..] == a[1..][..|a| - 2] && b[..|b| - 1][1..] == b[1..][..|b| - 2];
      }
    } else {
      SubsequenceInit(a, b[1..]);
      assert b[..|b| - 1][1..] == b[1..][..|b| - 2];
    }
  }

  lemma {:induction false} SubsequenceWithout<V>(a: seq<Item<V>>, b: seq<Item<V>>, key: string)
    requires Subsequence(a, b) && Distinct(a) && Distinct(b)
    ensures Subsequence(Without(a, key), Without(b, key))
  {
    if a != [] {
      DistinctTail(a);
      DistinctTail(b);
      WithoutStep(a, key);
      WithoutStep(b, key);
      if a[0] == b[0] && Subsequence(a[1..], b[1..]) {
        SubsequenceWithout(a[1..], b[1..], key);
        SubsequencePushed(Without(a[1..], key), Without(b[1..], key), a[0]);
      } else if b[0].key == key {
        SubsequenceAbsent(a, b[1..], key);
      } else {
        SubsequenceWithout(a, b[1..], key);
        SubsequenceSkips(Without(a, key), b[0], Without(b[1..], key));
      }
    }
  }

  lemma SubsequencePushed<T>(a: seq<T>, b: seq<T>, x: T)
    requires Subsequence(a, b)
    ensures Subsequence([x] + a, [x] + b)
  {
    assert ([x] + a)[1..] == a && ([x] + b)[1..] == b;
  }

  lemma SubsequenceSkips<T>(a: seq<T>, y: T, b: seq<T>)
    requires Subsequence(a, b)
    ensures Subsequence(a, [y] + b)
  {
    assert ([y] + b)[1..] == b;
  }

  lemma SubsequenceAbsent<V>(a: seq<Item<V>>, b: seq<Item<V>>, key: string)
    requires Subsequence(a, b) && Distinct(b) && key !in Keys(b)
    ensures Without(a, key) == a && Without(b, key) == b
  {
    SubsequenceMembers(a, b);
    FindKeys(a, key);
    FindKeys(b, key);
  }

  // The relation between a smaller and a larger cache that have seen the same operations.
  ghost predicate Nested<V>(small: seq<Item<V>>, k1: nat, large: seq<Item<V>>, k2: nat) {
    WellFormed(small, k1) && WellFormed(large, k2) && Subsequence(small, large) && |large| - |small| <= k2 - k1
  }

  lemma NestedHit<V>(small: seq<Item<V>>, k1: nat, large: seq<Item<V>>, k2: nat, key: string)
    requires Nested(small, k1, large, k2) && Find(small, key).Some?
    ensures Find(large, key) == Find(small, key)
  {
    var x := Item(key, Find(small, key).value);
    SubsequenceMembers(small, large);
    FindExact(small, x);
    FindExact(large, x);
  }

  lemma NestedStep<V>(small: seq<Item<V>>, k1: nat, large: seq<Item<V>>, k2: nat, op: Op<V>)
    requires Nested(small, k1, large, k2) && k1 <= k2
    ensures Nested(After(small, k1, op), k1, After(large, k2, op), k2)
  {
    AfterWellFormed(small, k1, op);
    AfterWellFormed(large, k2, op);
    WithoutMembers(small, op.key);
    WithoutMembers(large, op.key);
    SubsequenceWithout(small, large, op.key);
    if Find(small, op.key).Some? { NestedHit(small, k1, large, k2, op.key); }
    var a, b := Without(small, op.key), Without(large, op.key);
    match op
    case Get(_) =>
    case Set(k, v) =>
      var x := Item(k, v);
      assert ([x] + a)[1..] == a && ([x] + b)[1..] == b;
      assert Subsequence([x] + a, [x] + b);
      SubsequenceInit([x] + a, [x] + b);
      SubsequenceSkipsLast([x] + a, [x] + b);
    case Delete(_) =>
  }

  lemma {:induction false} SubsequenceSkipsLast<T>(a: seq<T>, b: seq<T>)
    requires Subsequence(a, b) && a != []
    ensures Subsequence(a[..|a| - 1], b)
  {
    if a[0] == b[0] && Subsequence(a[1..], b[1..]) {
      if |a| > 1 {
        SubsequenceSkipsLast(a[1..], b[1..]);
        assert a[..|a| - 1][1..] == a[1..][..|a| - 2];
      }
    } else {
      SubsequenceSkipsLast(a, b[1..]);
    }
  }

  // Every hit of the smaller cache is a hit of the larger one, with the same value.
  lemma {:induction false} Inclusion<V>(k1: nat, k2: nat, ops: seq<Op<V>>)
    requires 1 <= k1 <= k2
    ensures Nested(AfterAll([], k1, ops), k1, AfterAll([], k2, ops), k2)
    ensures forall key | Find(AfterAll([], k1, ops), key).Some? ::
              Find(AfterAll([], k2, ops), key) == Find(AfterAll([], k1, ops), key)
  {
    if ops != [] {
      Inclusion(k1, k2, ops[..|ops| - 1]);
      NestedStep(AfterAll([], k1, ops[..|ops| - 1]), k1, AfterAll([], k2, ops[..|ops| - 1]), k2, ops[|ops| - 1]);
    }
    var small, large := AfterAll([], k1, ops), AfterAll([], k2, ops);
    forall key | Find(small, key).Some? ensures Find(large, key) == Find(small, key) {
      NestedHit(small, k1, large, k2, key);
    }
  }

  function Hits<V>(capacity: nat, ops: seq<Op<V>>): nat {
    if ops == [] then 0 else
    var op := ops[|ops| - 1];
    Hits(capacity, ops[..|ops| - 1]) +
    if op.Get? && Find(AfterAll([], capacity, ops[..|ops| - 1]), op.key).Some? then 1 else 0
  }

  // More room never costs a hit.
  lemma {:induction false} MoreRoomMoreHits<V>(k1: nat, k2: nat, ops: seq<Op<V>>)
    requires 1 <= k1 <= k2
    ensures Hits(k1, ops) <= Hits(k2, ops)
  {
    if ops != [] {
      MoreRoomMoreHits(k1, k2, ops[..|ops| - 1]);
      Inclusion(k1, k2, ops[..|ops| - 1]);
    }
  }

  // Retention

  // The keys that a run sets or hits.
  ghost function Touched<V>(l: seq<Item<V>>, capacity: nat, ops: seq<Op<V>>): set<string> {
    if ops == [] then {} else
    var before, op := ops[..|ops| - 1], ops[|ops| - 1];
    var d := Touched(l, capacity, before);
    if op.Set? || (op.Get? && Find(AfterAll(l, capacity, before), op.key).Some?) then d + {op.key} else d
  }

  // The keys of the items in front of x.
  ghost function Ahead<V>(l: seq<Item<V>>, x: Item<V>): set<string> {
    if l == [] || l[0] == x then {} else {l[0].key} + Ahead(l[1..], x)
  }

  // An item stands behind keys of d only; behind all of them if nothing was deleted.
  ghost predicate Behind<V>(l: seq<Item<V>>, x: Item<V>, d: set<string>, all: bool) {
    x in l && Ahead(l, x) <= d && (all ==> Ahead(l, x) == d)
  }

  lemma AheadPushed<V>(it: Item<V>, l: seq<Item<V>>, x: Item<V>)
    requires it != x
    ensures Ahead([it] + l, x) == {it.key} + Ahead(l, x)
  {
    assert ([it] + l)[1..] == l;
  }

  lemma {:induction false} AheadWithout<V>(l: seq<Item<V>>, x: Item<V>, key: string)
    requires Distinct(l) && x in l && x.key != key
    ensures Ahead(Without(l, key), x) == Ahead(l, x) - {key}
  {
    WithoutStep(l, key);
    DistinctTail(l);
    if l[0].key == key {
      AheadFirst(l, x, key);
    } else if l[0] != x {
      assert x in l[1..];
      AheadWithout(l[1..], x, key);
      AheadStep(l[0], l[1..], Without(l[1..], key), x, key);
    }
  }

  lemma AheadFirst<V>(l: seq<Item<V>>, x: Item<V>, key: string)
    requires Distinct(l) && l != [] && l[0].key == key && x.key != key
    ensures Ahead(l[1..], x) == Ahead(l, x) - {key}
  {
    DistinctTail(l);
    AheadAbsent(l[1..], x, key);
    AheadPushed(l[0], l[1..], x);
  }

  lemma AheadStep<V>(y: Item<V>, rest: seq<Item<V>>, without: seq<Item<V>>, x: Item<V>, key: string)
    requires y != x && y.key != key
    ensures Ahead(without, x) == Ahead(rest, x) - {key} ==> Ahead([y] + without, x) == Ahead([y] + rest, x) - {key}
  {
    AheadPushed(y, rest, x);
    AheadPushed(y, without, x);
  }

  lemma DistinctTail<V>(l: seq<Item<V>>)
    requires Distinct(l) && l != []
    ensures l == [l[0]] + l[1..] && Distinct(l[1..]) && forall i | 0 <= i < |l[1..]| :: l[1..][i].key != l[0].key
  {
  }

  lemma {:induction false} AheadAbsent<V>(l: seq<Item<V>>, x: Item<V>, key: string)
    requires forall i | 0 <= i < |l| :: l[i].key != key
    ensures key !in Ahead(l, x)
  {
    if l != [] && l[0] != x { AheadAbsent(l[1..], x, key); }
  }

  lemma {:induction false} AheadInit<V>(l: seq<Item<V>>, x: Item<V>)
    requires x in l && l[|l| - 1] != x
    ensures x in l[..|l| - 1] && Ahead(l[..|l| - 1], x) == Ahead(l, x)
  {
    if l[0] != x {
      AheadInit(l[1..], x);
      assert l[..|l| - 1] == [l[0]] + l[1..][..|l| - 2];
      AheadPushed(l[0], l[1..][..|l| - 2], x);
    }
  }

  lemma {:induction false} AheadCount<V>(l: seq<Item<V>>, x: Item<V>)
    requires Distinct(l) && x in l
    ensures |Ahead(l, x)| < |l| && (l[|l| - 1] == x ==> |Ahead(l, x)| == |l| - 1)
  {
    if l[0] != x {
      AheadCount(l[1..], x);
      AheadAbsent(l[1..], x, l[0].key);
    }
  }

  // Where an item is after a run: behind what the run touched, or gone after enough was touched.
  ghost predicate Placed<V>(l: seq<Item<V>>, capacity: nat, x: Item<V>, d: set<string>, all: bool) {
    if x in l then Behind(l, x, d, all) else |d| >= capacity
  }

  lemma PlacedStep<V>(l: seq<Item<V>>, capacity: nat, op: Op<V>, x: Item<V>, d: set<string>, all: bool)
    requires WellFormed(l, capacity) && Placed(l, capacity, x, d, all) && op.key != x.key && !(all && op.Delete?)
    ensures Placed(After(l, capacity, op), capacity, x,
                   if op.Set? || (op.Get? && Find(l, op.key).Some?) then d + {op.key} else d, all)
  {
    PlacedWithout(l, capacity, op.key, x, d, all);
    var w := Without(l, op.key);
    match op
    case Get(k) => if Find(l, k).Some? { PlacedPushed(w, capacity, Item(k, Find(l, k).value), x, d, all); }
    case Set(k, v) => PlacedSet(w, capacity, Item(k, v), x, d, all);
    case Delete(_) =>
  }

  lemma PlacedSet<V>(w: seq<Item<V>>, capacity: nat, it: Item<V>, x: Item<V>, d: set<string>, all: bool)
    requires Distinct(w) && (forall y | y in w :: y.key != it.key) && x.key != it.key && |w| <= capacity
    requires if x in w then Ahead(w, x) <= d && (all ==> Ahead(w, x) == d - {it.key}) else |d| >= capacity
    ensures Placed(Limited([it] + w, capacity), capacity, x, d + {it.key}, all)
  {
    var l, d' := [it] + w, d + {it.key};
    PlacedPushed(w, capacity, it, x, d, all);
    assert Distinct(l) && Placed(l, capacity, x, d', all);
    if |l| > capacity {
      if x in l { PlacedLimited(l, capacity, x, d', all); } else { assert x !in l[..capacity]; }
    }
  }

  lemma PlacedWithout<V>(l: seq<Item<V>>, capacity: nat, key: string, x: Item<V>, d: set<string>, all: bool)
    requires WellFormed(l, capacity) && Placed(l, capacity, x, d, all) && x.key != key
    ensures var w := Without(l, key);
            Distinct(w) && (forall y | y in w :: y.key != key) && |w| <= capacity &&
            if x in w then Ahead(w, x) <= d && (all ==> Ahead(w, x) == d - {key}) else |d| >= capacity
  {
    WithoutMembers(l, key);
    if x in l { AheadWithout(l, x, key); }
  }

  lemma PlacedPushed<V>(w: seq<Item<V>>, capacity: nat, it: Item<V>, x: Item<V>, d: set<string>, all: bool)
    requires Distinct(w) && (forall y | y in w :: y.key != it.key) && x.key != it.key
    requires if x in w then Ahead(w, x) <= d && (all ==> Ahead(w, x) == d - {it.key}) else |d| >= capacity
    ensures Distinct([it] + w) && Placed([it] + w, capacity, x, d + {it.key}, all)
  {
    DistinctPushed(w, it);
    Smaller(d, d + {it.key});
    AheadPushed(it, w, x);
  }

  lemma PlacedLimited<V>(l: seq<Item<V>>, capacity: nat, x: Item<V>, d: set<string>, all: bool)
    requires Distinct(l) && |l| == capacity + 1 && Behind(l, x, d, all)
    ensures Placed(l[..capacity], capacity, x, d, all)
  {
    if l[capacity] == x {
      AheadCount(l, x);
      Smaller(Ahead(l, x), d);
    } else {
      AheadInit(l, x);
    }
  }

  lemma {:induction false} Smaller<T>(a: set<T>, b: set<T>)
    requires a <= b
    ensures |a| <= |b|
  {
    if x :| x in a { Smaller(a - {x}, b - {x}); }
  }

  lemma {:induction false} RunPlaced<V>(l: seq<Item<V>>, capacity: nat, ops: seq<Op<V>>, all: bool)
    requires WellFormed(l, capacity) && l != [] && forall op | op in ops :: op.key != l[0].key
    requires all ==> forall op | op in ops :: !op.Delete?
    ensures Placed(AfterAll(l, capacity, ops), capacity, l[0], Touched(l, capacity, ops), all)
  {
    if ops != [] {
      var before, op := ops[..|ops| - 1], ops[|ops| - 1];
      RunPlaced(l, capacity, before, all);
      RunWellFormed(l, capacity, before);
      PlacedStep(AfterAll(l, capacity, before), capacity, op, l[0], Touched(l, capacity, before), all);
    }
  }

  // An item that was just used is evicted only after as many distinct other keys were used as the cache
  // has room for; and if nothing is deleted in between, it is evicted exactly then.
  lemma Retention<V>(l: seq<Item<V>>, capacity: nat, ops: seq<Op<V>>)
    requires WellFormed(l, capacity) && l != [] && forall op | op in ops :: op.key != l[0].key
    ensures l[0] !in AfterAll(l, capacity, ops) ==> |Touched(l, capacity, ops)| >= capacity
    ensures (forall op | op in ops :: !op.Delete?) ==>
              (l[0] in AfterAll(l, capacity, ops) <==> |Touched(l, capacity, ops)| < capacity)
  {
    RunPlaced(l, capacity, ops, false);
    if forall op | op in ops :: !op.Delete? {
      RunPlaced(l, capacity, ops, true);
      RunWellFormed(l, capacity, ops);
      if l[0] in AfterAll(l, capacity, ops) { AheadCount(AfterAll(l, capacity, ops), l[0]); }
    }
  }
}
