// The least-recently-used program cache, as a list of items with the most recent first.
module Lru {
  import opened Values

  datatype Item<V> = Item(key: string, value: V)

  datatype Op<V> = Get(key: string) | Set(key: string, value: V) | Delete(key: string)

  ghost predicate Distinct<V>(l: seq<Item<V>>) {
    forall i, j | 0 <= i < j < |l| :: l[i].key != l[j].key
  }

  function Position<V>(l: seq<Item<V>>, key: string): (i: nat)
    ensures i <= |l| && (i < |l| ==> l[i].key == key)
  {
    if l == [] || l[0].key == key then 0 else 1 + Position(l[1..], key)
  }

  lemma {:induction false} PositionFirst<V>(l: seq<Item<V>>, key: string)
    ensures forall j | 0 <= j < Position(l, key) :: l[j].key != key
  {
    if l != [] && l[0].key != key { PositionFirst(l[1..], key); }
  }

  function Find<V>(l: seq<Item<V>>, key: string): Option<V> {
    var i := Position(l, key);
    if i < |l| then Some(l[i].value) else None
  }

  function Without<V>(l: seq<Item<V>>, key: string): seq<Item<V>> {
    var i := Position(l, key);
    if i < |l| then l[..i] + l[i + 1..] else l
  }

  function Limited<V>(l: seq<Item<V>>, capacity: nat): seq<Item<V>> {
    if |l| > capacity then l[..|l| - 1] else l
  }

  // What each operation makes of the list. A hit moves the item to the front; a set puts it there and
  // drops the last item if there is one too many.
  function After<V>(l: seq<Item<V>>, capacity: nat, op: Op<V>): seq<Item<V>> {
    match op
    case Get(k) => if Find(l, k).Some? then [Item(k, Find(l, k).value)] + Without(l, k) else l
    case Set(k, v) => Limited([Item(k, v)] + Without(l, k), capacity)
    case Delete(k) => Without(l, k)
  }

  function AfterAll<V>(l: seq<Item<V>>, capacity: nat, ops: seq<Op<V>>): seq<Item<V>> {
    if ops == [] then l else After(AfterAll(l, capacity, ops[..|ops| - 1]), capacity, ops[|ops| - 1])
  }

  class Entry<V> {
    const key: string
    var value: V

    constructor (key: string, value: V)
      ensures this.key == key && this.value == value
    {
      this.key, this.value := key, value;
    }
  }

  datatype Stats = Stats(entries: nat, capacity: nat, gets: nat, hits: nat, misses: nat, sets: nat, evictions: nat)

  ghost predicate Apart<T>(s: seq<T>) {
    s == [] || (s[|s| - 1] !in s[..|s| - 1] && Apart(s[..|s| - 1]))
  }

  lemma {:induction false} ApartExact<T>(s: seq<T>)
    ensures Apart(s) <==> forall i, j | 0 <= i < j < |s| :: s[i] != s[j]
  {
    if s != [] { ApartExact(s[..|s| - 1]); }
  }

  lemma ApartUnique<T>(s: seq<T>, i: nat, j: nat)
    requires Apart(s) && i < |s| && j < |s| && s[i] == s[j]
    ensures i == j
  {
    ApartExact(s);
  }

  lemma ApartPushed<T>(s: seq<T>, x: T)
    requires Apart(s) && x !in s
    ensures Apart([x] + s)
  {
    ApartExact(s);
    ApartExact([x] + s);
  }

  // The element at i out of the list.
  function Dropped<T>(s: seq<T>, i: nat): seq<T>
    requires i < |s|
  {
    s[..i] + s[i + 1..]
  }

  lemma DroppedAt<T>(s: seq<T>, i: nat, j: nat)
    requires i < |s| && j < |s| - 1
    ensures Dropped(s, i)[j] == s[if j < i then j else j + 1]
  {
  }

  lemma ApartDropped<T>(s: seq<T>, i: nat)
    requires Apart(s) && i < |s|
    ensures Apart(Dropped(s, i)) && s[i] !in Dropped(s, i)
    ensures forall x :: x in Dropped(s, i) <==> x in s && x != s[i]
  {
    var d := Dropped(s, i);
    forall a, b | 0 <= a < b < |d| ensures d[a] != d[b] {
      DroppedAt(s, i, a);
      DroppedAt(s, i, b);
      if d[a] == d[b] { ApartUnique(s, if a < i then a else a + 1, if b < i then b else b + 1); }
    }
    ApartExact(d);
    DroppedMembers(s, i);
  }

  lemma DroppedMembers<T>(s: seq<T>, i: nat)
    requires Apart(s) && i < |s|
    ensures forall x :: x in Dropped(s, i) <==> x in s && x != s[i]
  {
    forall x ensures x in Dropped(s, i) <==> x in s && x != s[i] { DroppedContains(s, i, x); }
  }

  lemma DroppedContains<T>(s: seq<T>, i: nat, x: T)
    requires Apart(s) && i < |s|
    ensures x in Dropped(s, i) <==> x in s && x != s[i]
  {
    var d := Dropped(s, i);
    if x in d {
      var j :| 0 <= j < |d| && d[j] == x;
      DroppedAt(s, i, j);
      if x == s[i] { ApartUnique(s, i, if j < i then j else j + 1); }
    }
    if x in s && x != s[i] {
      var j :| 0 <= j < |s| && s[j] == x;
      DroppedAt(s, i, if j < i then j else j - 1);
    }
  }

  // The map and the list hold the same elements, and the list holds none twice.
  ghost predicate Linked<V>(order: seq<Entry<V>>, items: map<string, Entry<V>>) {
    (forall i | 0 <= i < |order| :: order[i].key in items && items[order[i].key] == order[i]) &&
    (forall k | k in items :: items[k] in order && items[k].key == k) &&
    Apart(order)
  }

  ghost function Pairs<V>(order: seq<Entry<V>>): (l: seq<Item<V>>)
    reads order
    ensures |l| == |order|
  {
    seq(|order|, i requires 0 <= i < |order| reads order => Item(order[i].key, order[i].value))
  }

  lemma PairsDistinct<V>(order: seq<Entry<V>>, items: map<string, Entry<V>>)
    requires Linked(order, items)
    ensures Distinct(Pairs(order))
  {
    forall i, j | 0 <= i < j < |order| ensures Pairs(order)[i].key != Pairs(order)[j].key {
      if order[i].key == order[j].key { ApartUnique(order, i, j); }
    }
  }

  lemma {:induction false} Counted<V>(order: seq<Entry<V>>, items: map<string, Entry<V>>)
    requires Linked(order, items)
    ensures |items| == |order|
    decreases |order|
  {
    if order == [] {
      assert items == map[] by { if k :| k in items { assert false; } }
    } else {
      var last := order[|order| - 1];
      var rest := map k | k in items && k != last.key :: items[k];
      assert rest == items - {last.key};
      forall k | k in rest ensures rest[k] in order[..|order| - 1] {}
      Counted(order[..|order| - 1], rest);
    }
  }

  lemma PushedLinked<V>(order: seq<Entry<V>>, items: map<string, Entry<V>>, elem: Entry<V>)
    requires Linked(order, items) && elem !in order && elem.key !in items
    ensures Linked([elem] + order, items[elem.key := elem])
  {
    ApartPushed(order, elem);
  }

  lemma MovedLinked<V>(order: seq<Entry<V>>, items: map<string, Entry<V>>, i: nat)
    requires Linked(order, items) && i < |order|
    ensures Linked([order[i]] + Dropped(order, i), items)
    ensures forall x :: x in [order[i]] + Dropped(order, i) ==> x in order
  {
    ApartDropped(order, i);
    ApartPushed(Dropped(order, i), order[i]);
    SameElements(order, [order[i]] + Dropped(order, i), items);
  }

  lemma SameElements<V>(order: seq<Entry<V>>, other: seq<Entry<V>>, items: map<string, Entry<V>>)
    requires Linked(order, items) && Apart(other) && forall x :: x in other <==> x in order
    ensures Linked(other, items)
  {
    forall i | 0 <= i < |other| ensures other[i].key in items && items[other[i].key] == other[i] {
      assert other[i] in order;
    }
  }

  lemma DroppedLinked<V>(order: seq<Entry<V>>, items: map<string, Entry<V>>, i: nat)
    requires Linked(order, items) && i < |order|
    ensures Linked(Dropped(order, i), items - {order[i].key})
  {
    ApartDropped(order, i);
    var rest := Dropped(order, i);
    forall j | 0 <= j < |rest|
      ensures rest[j].key in items && items[rest[j].key] == rest[j] && rest[j].key != order[i].key
    {
      assert rest[j] in order && rest[j] != order[i];
    }
  }

  lemma PairsDropped<V>(order: seq<Entry<V>>, i: nat)
    requires i < |order|
    ensures Pairs(Dropped(order, i)) == Dropped(Pairs(order), i)
    ensures Pairs([order[i]] + Dropped(order, i)) == [Pairs(order)[i]] + Dropped(Pairs(order), i)
  {
  }

  // What the operations make of the list, depending on whether the map holds the key.
  lemma KeyMissing<V>(order: seq<Entry<V>>, items: map<string, Entry<V>>, key: string)
    requires Linked(order, items) && key !in items
    ensures Find(Pairs(order), key).None? && Without(Pairs(order), key) == Pairs(order)
    ensures forall capacity :: After(Pairs(order), capacity, Op.Get(key)) == Pairs(order)
    ensures forall capacity :: After(Pairs(order), capacity, Op.Delete(key)) == Pairs(order)
  {
  }

  lemma KeyFound<V>(order: seq<Entry<V>>, items: map<string, Entry<V>>, capacity: nat, key: string) returns (i: nat)
    requires Linked(order, items) && key in items && |order| <= capacity
    ensures i < |order| && order[i] == items[key] && Find(Pairs(order), key) == Some(order[i].value)
    ensures After(Pairs(order), capacity, Op.Get(key)) == [Pairs(order)[i]] + Dropped(Pairs(order), i)
    ensures forall v :: After(Pairs(order), capacity, Op.Set(key, v)) == [Item(key, v)] + Dropped(Pairs(order), i)
    ensures After(Pairs(order), capacity, Op.Delete(key)) == Dropped(Pairs(order), i)
  {
    i :| 0 <= i < |order| && order[i] == items[key];
    var l := Pairs(order);
    PositionFirst(l, key);
    assert l[i].key == key;
    var j := Position(l, key);
    assert order[j].key == key;
    ApartUnique(order, i, j);
  }

  // The cache as the source has it: a map from keys to list elements, and the list of elements.
  class LruProgramCache<V> {
    const capacity: nat
    var items: map<string, Entry<V>>
    var order: seq<Entry<V>>
    var gets: nat
    var hits: nat
    var misses: nat
    var sets: nat
    var evictions: nat
    ghost var repr: set<Entry<V>>

    ghost predicate Valid()
      reads this
    {
      1 <= capacity && |order| <= capacity && gets == hits + misses && Linked(order, items) &&
      (forall e <- order :: e in repr)
    }

    ghost function Contents(): (l: seq<Item<V>>)
      reads this, order
    {
      Pairs(order)
    }

    constructor (requested: int)
      ensures Valid() && Contents() == [] && capacity == if requested <= 0 then 1 else requested
      ensures gets == hits == misses == sets == evictions == 0 && repr == {}
    {
      capacity := if requested <= 0 then 1 else requested;
      items, order := map[], [];
      gets, hits, misses, sets, evictions := 0, 0, 0, 0, 0;
      repr := {};
    }

    // Where an element stands in the list.
    method IndexOf(elem: Entry<V>) returns (i: nat)
      requires elem in order
      ensures i < |order| && order[i] == elem
    {
      i := 0;
      while order[i] != elem
        invariant i < |order| && elem in order[i..]
        decreases |order| - i
      {
        i := i + 1;
      }
    }

    method MoveToFront(elem: Entry<V>, ghost i: nat)
      requires Linked(order, items) && i < |order| && order[i] == elem
      modifies this`order
      ensures order == [elem] + Dropped(old(order), i) && Linked(order, items) && |order| == old(|order|)
      ensures Contents() == [old(Contents())[i]] + Dropped(old(Contents()), i) && forall e <- order :: e in old(order)
    {
      var j := IndexOf(elem);
      ApartUnique(order, i, j);
      MovedLinked(order, items, i);
      PairsDropped(order, i);
      order := [elem] + (order[..j] + order[j + 1..]);
    }

    method Get(key: string) returns (r: Option<V>)
      requires Valid()
      modifies this
      ensures Valid() && r == Find(old(Contents()), key)
      ensures Contents() == After(old(Contents()), capacity, Op.Get(key))
      ensures gets == old(gets) + 1 && hits == old(hits) + (if r.Some? then 1 else 0)
      ensures sets == old(sets) && evictions == old(evictions) && repr == old(repr)
    {
      gets := gets + 1;
      ghost var was := Contents();
      if key !in items {
        KeyMissing(order, items, key);
        misses := misses + 1;
        assert Contents() == was;
        return None;
      }
      hits := hits + 1;
      assert Contents() == was;
      r := Touch(key);
    }

    method Touch(key: string) returns (r: Option<V>)
      requires Linked(order, items) && |order| <= capacity && key in items
      modifies this`order
      ensures Linked(order, items) && Contents() == After(old(Contents()), capacity, Op.Get(key))
      ensures r == Find(old(Contents()), key) && r.Some?
      ensures |order| == old(|order|) && forall e <- order :: e in old(order)
    {
      var elem := items[key];
      ghost var i := KeyFound(order, items, capacity, key);
      MoveToFront(elem, i);
      return Some(elem.value);
    }

    method SetValue(elem: Entry<V>, value: V)
      requires Apart(order) && order != [] && order[0] == elem
      modifies elem
      ensures Contents() == [Item(elem.key, value)] + old(Contents())[1..]
    {
      ApartExact(order);
      elem.value := value;
    }

    method Set(key: string, value: V)
      requires Valid()
      modifies this, repr
      ensures Valid() && Contents() == After(old(Contents()), capacity, Op.Set(key, value)) && fresh(repr - old(repr))
      ensures gets == old(gets) && hits == old(hits) && sets == old(sets) + 1
      ensures evictions == old(evictions) +
              (if Find(old(Contents()), key).None? && old(|order|) == capacity then 1 else 0)
    {
      sets := sets + 1;
      assert Contents() == old(Contents());
      if key in items { Replace(key, value); } else { Insert(key, value); }
    }

    method Replace(key: string, value: V)
      requires Linked(order, items) && |order| <= capacity && key in items
      modifies this`order, items[key]
      ensures Linked(order, items) && Contents() == After(old(Contents()), capacity, Op.Set(key, value))
      ensures |order| == old(|order|) && (forall e <- order :: e in old(order)) && Find(old(Contents()), key).Some?
    {
      var elem := items[key];
      ghost var i := KeyFound(order, items, capacity, key);
      MoveToFront(elem, i);
      SetValue(elem, value);
    }

    method Insert(key: string, value: V)
      requires Linked(order, items) && 1 <= capacity && |order| <= capacity && key !in items
      requires forall e <- order :: e in repr
      modifies this`order, this`items, this`evictions, this`repr
      ensures Linked(order, items) && Contents() == After(old(Contents()), capacity, Op.Set(key, value)) &&
              |order| <= capacity
      ensures (forall e <- order :: e in repr) && fresh(repr - old(repr)) && Find(old(Contents()), key).None?
      ensures evictions == old(evictions) + (if old(|order|) == capacity then 1 else 0)
    {
      KeyMissing(order, items, key);
      PushFront(key, value);
      Counted(order, items);
      if |items| > capacity { EvictOldest(); }
    }

    method PushFront(key: string, value: V)
      requires Linked(order, items) && key !in items && forall e <- order :: e in repr
      modifies this`order, this`items, this`repr
      ensures Linked(order, items) && Contents() == [Item(key, value)] + old(Contents())
      ensures |order| == |old(order)| + 1 && (forall e <- order :: e in repr) && fresh(repr - old(repr))
    {
      var elem := new Entry(key, value);
      PushedLinked(order, items, elem);
      order := [elem] + order;
      items := items[key := elem];
      repr := repr + {elem};
    }

    method Delete(key: string)
      requires Valid()
      modifies this
      ensures Valid() && Contents() == After(old(Contents()), capacity, Op.Delete(key))
      ensures gets == old(gets) && hits == old(hits) && sets == old(sets) && evictions == old(evictions) &&
              repr == old(repr)
    {
      if key !in items {
        KeyMissing(order, items, key);
        return;
      }
      ghost var at := KeyFound(order, items, capacity, key);
      Remove(items[key], at);
      items := items - {key};
    }

    method Remove(elem: Entry<V>, ghost at: nat)
      requires Linked(order, items) && at < |order| && order[at] == elem
      modifies this`order
      ensures order == Dropped(old(order), at) && Contents() == Dropped(old(Contents()), at)
      ensures Linked(order, items - {elem.key})
    {
      var i := IndexOf(elem);
      ApartUnique(order, i, at);
      DroppedLinked(order, items, i);
      PairsDropped(order, i);
      order := order[..i] + order[i + 1..];
    }

    method EvictOldest()
      requires Linked(order, items) && order != []
      modifies this`order, this`items, this`evictions
      ensures order == old(order[..|order| - 1]) && Linked(order, items) && evictions == old(evictions) + 1
      ensures Contents() == old(Contents()[..|Contents()| - 1])
    {
      DroppedLinked(order, items, |order| - 1);
      var elem := order[|order| - 1];
      order := order[..|order| - 1];
      items := items - {elem.key};
      evictions := evictions + 1;
      assert order == Dropped(old(order), old(|order|) - 1);
    }

    method GetStats() returns (s: Stats)
      requires Valid()
      ensures s == Stats(|order|, capacity, gets, hits, misses, sets, evictions) && s.gets == s.hits + s.misses &&
              s.entries <= s.capacity
    {
      Counted(order, items);
      return Stats(|items|, capacity, gets, hits, misses, sets, evictions);
    }
  }
}
