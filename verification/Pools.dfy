// Append-only pools that hand out one index per key, and the keys of constants.
module Pools {
  import opened Values
  import opened Operators
  import opened Schema

  datatype Pool<K, V> = Pool(items: seq<V>, index: map<K, nat>)

  function Same<T>(x: T): T { x }

  // Keys and positions are in bijection.
  ghost predicate Valid<K(!new), V>(p: Pool<K, V>, key: V -> K) {
    (forall k | k in p.index :: p.index[k] < |p.items| && key(p.items[p.index[k]]) == k) &&
    (forall i | 0 <= i < |p.items| :: key(p.items[i]) in p.index && p.index[key(p.items[i])] == i)
  }

  function Intern<K, V>(p: Pool<K, V>, k: K, v: V): Pool<K, V> {
    if k in p.index then p else Pool(p.items + [v], p.index[k := |p.items|])
  }

  // Every key keeps its index and every index its item.
  ghost predicate Extends<K(!new), V>(p: Pool<K, V>, q: Pool<K, V>) {
    p.items <= q.items && (forall k | k in p.index :: k in q.index && q.index[k] == p.index[k])
  }

  // The constant pool's key is what `%T:%#v` prints: the dynamic type of the constant and its text,
  // in which the numbers inside lists and maps no longer show their kind.
  datatype TypeTag = NilTag | BoolTag | StringTag | IntTag | Int64Tag | Float64Tag | SliceTag | MapTag

  datatype Printed =
    | PrintedNil
    | PrintedBool(b: bool)
    | PrintedString(s: string)
    | PrintedNumber(n: NumberText)
    | PrintedSlice(items: seq<Printed>)
    | PrintedMap(entries: map<string, Printed>)

  datatype ConstKey = ConstKey(tag: TypeTag, text: Printed)

  function Tag(v: Value): TypeTag {
    match v
    case Null => NilTag
    case Bool(_) => BoolTag
    case Str(_) => StringTag
    case Int(_) => IntTag
    case Long(_) => Int64Tag
    case Double(_) => Float64Tag
    case List(_) => SliceTag
    case Map(_) => MapTag
  }

  function Print(v: Value, fl: FloatOps): Printed {
    match v
    case Null => PrintedNil
    case Bool(b) => PrintedBool(b)
    case Str(s) => PrintedString(s)
    case Int(i) => PrintedNumber(Whole(i))
    case Long(l) => PrintedNumber(Whole(l))
    case Double(d) => PrintedNumber(fl.text(d))
    case List(vs) => PrintedSlice(seq(|vs|, i requires 0 <= i < |vs| => Print(vs[i], fl)))
    case Map(kvs) => PrintedMap(map k | k in kvs :: Print(kvs[k], fl))
  }

  function KeyOf(v: Value, fl: FloatOps): ConstKey {
    ConstKey(Tag(v), Print(v, fl))
  }

  // What code generation asks the pools for.
  datatype Item = Const(v: Value) | Factor(a: Accessor) | Name(f: Builtin)

  function BuiltinName(f: Builtin): (name: string)
    ensures BuiltinNamed(name) == Some(f)
  {
    match f
    case IsEmpty => "isEmpty"
    case Exists => "exists"
    case In => "in"
    case Contains => "contains"
    case Get => "get"
  }

  datatype PoolSet = PoolSet(
    consts: Pool<ConstKey, Value>,
    accessors: Pool<Accessor, Accessor>,
    builtins: Pool<string, string>)

  const EMPTY_POOLS := PoolSet(Pool([], map[]), Pool([], map[]), Pool([], map[]))

  ghost predicate ValidSet(ps: PoolSet, fl: FloatOps) {
    Valid(ps.consts, v => KeyOf(v, fl)) && Valid(ps.accessors, Same) && Valid(ps.builtins, Same)
  }

  ghost predicate ExtendsSet(ps: PoolSet, qs: PoolSet) {
    Extends(ps.consts, qs.consts) && Extends(ps.accessors, qs.accessors) && Extends(ps.builtins, qs.builtins)
  }

  function InternItem(ps: PoolSet, it: Item, fl: FloatOps): PoolSet {
    match it
    case Const(v) => ps.(consts := Intern(ps.consts, KeyOf(v, fl), v))
    case Factor(a) => ps.(accessors := Intern(ps.accessors, a, a))
    case Name(f) => ps.(builtins := Intern(ps.builtins, BuiltinName(f), BuiltinName(f)))
  }

  function InternAll(ps: PoolSet, its: seq<Item>, fl: FloatOps): PoolSet {
    if its == [] then ps else InternItem(InternAll(ps, its[..|its| - 1], fl), its[|its| - 1], fl)
  }

  // Whether an item has an index, and that index.
  predicate Has(ps: PoolSet, it: Item, fl: FloatOps) {
    match it
    case Const(v) => KeyOf(v, fl) in ps.consts.index
    case Factor(a) => a in ps.accessors.index
    case Name(f) => BuiltinName(f) in ps.builtins.index
  }

  function IndexOf(ps: PoolSet, it: Item, fl: FloatOps): nat {
    if !Has(ps, it, fl) then 0
    else
      match it
      case Const(v) => ps.consts.index[KeyOf(v, fl)]
      case Factor(a) => ps.accessors.index[a]
      case Name(f) => ps.builtins.index[BuiltinName(f)]
  }

  lemma {:induction false} InternAllConcat(ps: PoolSet, a: seq<Item>, b: seq<Item>, fl: FloatOps)
    ensures InternAll(ps, a + b, fl) == InternAll(InternAll(ps, a, fl), b, fl)
  {
    if b == [] {
      assert a + b == a;
    } else {
      assert (a + b)[..|a + b| - 1] == a + b[..|b| - 1];
      InternAllConcat(ps, a, b[..|b| - 1], fl);
    }
  }

  lemma InternGrows<K(!new), V>(p: Pool<K, V>, k: K, v: V, key: V -> K)
    requires Valid(p, key) && key(v) == k
    ensures Valid(Intern(p, k, v), key) && Extends(p, Intern(p, k, v)) && k in Intern(p, k, v).index
  {
  }

  lemma InternItemGrows(ps: PoolSet, it: Item, fl: FloatOps)
    requires ValidSet(ps, fl)
    ensures ValidSet(InternItem(ps, it, fl), fl) && ExtendsSet(ps, InternItem(ps, it, fl))
    ensures Has(InternItem(ps, it, fl), it, fl)
  {
    match it
    case Const(v) => InternGrows(ps.consts, KeyOf(v, fl), v, v => KeyOf(v, fl));
    case Factor(a) => InternGrows(ps.accessors, a, a, Same);
    case Name(f) => InternGrows(ps.builtins, BuiltinName(f), BuiltinName(f), Same);
  }

  // Interning keeps the pools valid, never moves what is there, and gives every item an index.
  lemma {:induction false} InternAllGrows(ps: PoolSet, its: seq<Item>, fl: FloatOps)
    requires ValidSet(ps, fl)
    ensures ValidSet(InternAll(ps, its, fl), fl)
    ensures ExtendsSet(ps, InternAll(ps, its, fl))
    ensures forall it | it in its :: Has(InternAll(ps, its, fl), it, fl)
  {
    if its != [] {
      var qs := InternAll(ps, its[..|its| - 1], fl);
      InternAllGrows(ps, its[..|its| - 1], fl);
      InternItemGrows(qs, its[|its| - 1], fl);
      forall it | it in its ensures Has(InternAll(ps, its, fl), it, fl) {
        if it in its[..|its| - 1] { IndexStable(qs, InternAll(ps, its, fl), it, fl); }
      }
    }
  }

  // An item keeps its index while the pools grow.
  lemma IndexStable(ps: PoolSet, qs: PoolSet, it: Item, fl: FloatOps)
    requires ExtendsSet(ps, qs) && Has(ps, it, fl)
    ensures Has(qs, it, fl) && IndexOf(qs, it, fl) == IndexOf(ps, it, fl)
  {
  }

  // No two constants share a pool key.
  ghost predicate Distinguished(vs: set<Value>, fl: FloatOps) {
    forall u, v | u in vs && v in vs && KeyOf(u, fl) == KeyOf(v, fl) :: u == v
  }

  function ItemConstants(its: seq<Item>): set<Value> {
    set it | it in its && it.Const? :: it.v
  }

  // Every constant in the grown pool was there before or was asked for.
  lemma {:induction false} InternAllOrigin(ps: PoolSet, its: seq<Item>, fl: FloatOps)
    ensures forall v | v in InternAll(ps, its, fl).consts.items :: v in ps.consts.items || Const(v) in its
  {
    if its != [] {
      InternAllOrigin(ps, its[..|its| - 1], fl);
    }
  }

  // The pool hands back the constant asked for, unless a different one took its key first.
  lemma InternExact(ps: PoolSet, v: Value, fl: FloatOps)
    requires ValidSet(ps, fl)
    ensures var qs := InternItem(ps, Const(v), fl);
            qs.consts.items[IndexOf(qs, Const(v), fl)] == v <==>
            !(exists u | u in ps.consts.items :: u != v && KeyOf(u, fl) == KeyOf(v, fl))
  {
    if KeyOf(v, fl) in ps.consts.index {
      var u := ps.consts.items[ps.consts.index[KeyOf(v, fl)]];
      assert u in ps.consts.items && KeyOf(u, fl) == KeyOf(v, fl);
      forall w | w in ps.consts.items && KeyOf(w, fl) == KeyOf(v, fl) ensures w == u {
        var i :| 0 <= i < |ps.consts.items| && ps.consts.items[i] == w;
      }
    }
  }

  // What the keys of constants without doubles tell apart.

  predicate NoDoubles(v: Value) {
    !v.Double? && (v.List? ==> forall i | 0 <= i < |v.items| :: NoDoubles(v.items[i])) &&
    (v.Map? ==> forall k | k in v.entries :: NoDoubles(v.entries[k]))
  }

  // Whole numbers with their kinds forgotten.
  function Blurred(v: Value): Value {
    match v
    case Int(i) => Long(i)
    case List(vs) => List(seq(|vs|, i requires 0 <= i < |vs| => Blurred(vs[i])))
    case Map(kvs) => Map(map k | k in kvs :: Blurred(kvs[k]))
    case _ => v
  }

  lemma {:induction false} PrintExact(v: Value, w: Value, fl: FloatOps)
    requires NoDoubles(v) && NoDoubles(w)
    ensures Print(v, fl) == Print(w, fl) <==> Blurred(v) == Blurred(w)
    decreases v
  {
    if v.List? && w.List? {
      PrintExactItems(v.items, w.items, v, fl);
    } else if v.Map? && w.Map? {
      PrintExactEntries(v, w, fl);
    }
  }

  lemma {:induction false} PrintExactItems(vs: seq<Value>, ws: seq<Value>, v: Value, fl: FloatOps)
    requires v == List(vs) && NoDoubles(v) && NoDoubles(List(ws))
    ensures Print(List(vs), fl) == Print(List(ws), fl) <==> Blurred(List(vs)) == Blurred(List(ws))
    decreases v, 0
  {
    var p, q := Print(List(vs), fl).items, Print(List(ws), fl).items;
    var a, b := Blurred(List(vs)).items, Blurred(List(ws)).items;
    if |vs| == |ws| {
      forall i | 0 <= i < |vs| ensures p[i] == q[i] <==> a[i] == b[i] { PrintExact(vs[i], ws[i], fl); }
      SameItems(p, q, a, b);
    } else {
      assert |p| != |q| && |a| != |b|;
    }
  }

  lemma SameItems<S, T>(p: seq<S>, q: seq<S>, a: seq<T>, b: seq<T>)
    requires |p| == |q| == |a| == |b| && forall i | 0 <= i < |p| :: p[i] == q[i] <==> a[i] == b[i]
    ensures p == q <==> a == b
  {
    if p == q { assert forall i | 0 <= i < |a| :: a[i] == b[i]; }
  }

  lemma {:induction false} PrintExactEntries(v: Value, w: Value, fl: FloatOps)
    requires v.Map? && w.Map? && NoDoubles(v) && NoDoubles(w)
    ensures Print(v, fl) == Print(w, fl) <==> Blurred(v) == Blurred(w)
    decreases v, 0
  {
    var p, q, a, b := Print(v, fl).entries, Print(w, fl).entries, Blurred(v).entries, Blurred(w).entries;
    assert p.Keys == a.Keys == v.entries.Keys && q.Keys == b.Keys == w.entries.Keys;
    forall k | k in v.entries && k in w.entries ensures p[k] == q[k] <==> a[k] == b[k] {
      PrintExact(v.entries[k], w.entries[k], fl);
    }
    SameEntries(p, q, a, b);
  }

  lemma SameEntries<S, T>(p: map<string, S>, q: map<string, S>, a: map<string, T>, b: map<string, T>)
    requires p.Keys == a.Keys && q.Keys == b.Keys && forall k | k in p && k in q :: p[k] == q[k] <==> a[k] == b[k]
    ensures p == q <==> a == b
  {
    if p == q {
      assert a.Keys == b.Keys && forall k | k in a :: a[k] == b[k];
    }
    if a == b {
      assert p.Keys == q.Keys && forall k | k in p :: p[k] == q[k];
    }
  }

  // Constants without doubles share a key exactly if they are of the same kind and become equal when the kinds of
  // the numbers inside them are forgotten.
  lemma KeyExact(v: Value, w: Value, fl: FloatOps)
    requires NoDoubles(v) && NoDoubles(w)
    ensures KeyOf(v, fl) == KeyOf(w, fl) <==>
            Blurred(v) == Blurred(w) && (v.Int? <==> w.Int?)
  {
    PrintExact(v, w, fl);
  }
}
