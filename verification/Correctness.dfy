// Compiled programs mean what the bound tree means, and exactly where they do not.
module Correctness {
  import opened Values
  import opened Operators
  import opened Bound
  import opened Bytecode
  import opened Pools
  import opened Codegen
  import opened Folding
  import opened Compiler
  import opened Simulation

  // Steps and stack suffice for code of this size and depth.
  predicate WithinLimits(e: Bound, lim: Limits) {
    Size(e) <= Allowed(lim) && Depth(e) <= lim.maxDepth
  }

  // No constant the tree needs shares its pool key with another one, or with one already there.
  ghost predicate Unambiguous(e: Bound, before: PoolSet, fl: FloatOps) {
    Distinguished((set v | v in before.consts.items) + ItemConstants(Items(e)), fl)
  }

  ghost function MachineFor(p: Program, env: Env, lim: Limits, ix: PoolSet): (m: Machine)
    ensures IsMachine(m) && m.p == p && m.env == env && m.lim == lim && m.ix == ix
  {
    var g := Image(p, ix, env.fl);
    Machine(p, env, lim, ix,
            (ip: nat, s: Stack, n: nat) => Run(p, env, lim, ip, s, n),
            e => EvalIn(e, env, Raw), es => EvalAllIn(es, env, Raw), es => EvalEntriesIn(es, env, Raw),
            (e: Bound, base: nat) => Coded(g, e, base),
            (es: seq<Bound>, base: nat) => CodedAll(g, es, base),
            (es: seq<Entry>, base: nat) => CodedEntries(g, es, base))
  }

  // The constant the pool hands out for v.
  function Stored(v: Value, ix: PoolSet, fl: FloatOps): Value {
    var i := IndexOf(ix, Const(v), fl);
    if Has(ix, Const(v), fl) && i < |ix.consts.items| then ix.consts.items[i] else v
  }

  // The tree with every literal replaced by the constant the pool hands out for it.
  function Represented(e: Bound, ix: PoolSet, fl: FloatOps): Bound
    decreases e, 1
  {
    match e
    case Literal(v, info) => Literal(Stored(v, ix, fl), info)
    case Ref(_, _) => e
    case Unary(op, x, info) => Unary(op, Represented(x, ix, fl), info)
    case Binary(op, l, r, info) => Binary(op, Represented(l, ix, fl), Represented(r, ix, fl), info)
    case Cond(c, t, f, info) => Cond(Represented(c, ix, fl), Represented(t, ix, fl), Represented(f, ix, fl), info)
    case Call(fn, args, info) => Call(fn, RepresentedAll(args, ix, fl), info)
    case ListOf(es, et, info) => ListOf(RepresentedAll(es, ix, fl), et, info)
    case MapOf(es, vt, info) => MapOf(RepresentedEntries(es, ix, fl), vt, info)
  }

  function RepresentedAll(es: seq<Bound>, ix: PoolSet, fl: FloatOps): (r: seq<Bound>)
    ensures |r| == |es|
    decreases es, 0
  {
    if es == [] then [] else RepresentedAll(es[..|es| - 1], ix, fl) + [Represented(es[|es| - 1], ix, fl)]
  }

  function RepresentedEntries(es: seq<Entry>, ix: PoolSet, fl: FloatOps): (r: seq<Entry>)
    ensures |r| == |es|
    decreases es, 0
  {
    if es == [] then [] else
    RepresentedEntries(es[..|es| - 1], ix, fl) + [Entry(es[|es| - 1].key, Represented(es[|es| - 1].value, ix, fl))]
  }

  // The code of a tree is also the code of its represented form, whose items the pools give back.
  ghost predicate Faithful(g: Image, e: Bound, base: nat) {
    var r := Represented(e, g.ix, g.fl);
    CodeAt(g.p.instructions, r, base, g.ix, g.fl) && ResolvesAll(g, Items(r)) &&
    Size(r) == Size(e) && Depth(r) == Depth(e)
  }

  ghost predicate FaithfulAll(g: Image, es: seq<Bound>, base: nat) {
    var rs := RepresentedAll(es, g.ix, g.fl);
    CodeAllAt(g.p.instructions, rs, base, g.ix, g.fl) && ResolvesAll(g, ItemsAll(rs)) &&
    SizeAll(rs) == SizeAll(es) && DepthAll(rs) == DepthAll(es)
  }

  ghost predicate FaithfulEntries(g: Image, es: seq<Entry>, base: nat) {
    var rs := RepresentedEntries(es, g.ix, g.fl);
    CodeEntriesAt(g.p.instructions, rs, base, g.ix, g.fl) && ResolvesAll(g, ItemsEntries(rs)) &&
    SizeEntries(rs) == SizeEntries(es) && DepthEntries(rs) == DepthEntries(es)
  }

  ghost predicate PoolsOf(g: Image) {
    ValidSet(g.ix, g.fl) && g.p.constants == g.ix.consts.items &&
    g.p.accessors == g.ix.accessors.items && g.p.builtins == g.ix.builtins.items
  }

  lemma PlainStored(v: Value, ix: PoolSet, fl: FloatOps)
    requires ValidSet(ix, fl) && Has(ix, Const(v), fl) && !v.Double? && !v.List? && !v.Map?
    ensures Stored(v, ix, fl) == v
  {
    var u := ix.consts.items[ix.consts.index[KeyOf(v, fl)]];
    assert KeyOf(u, fl) == KeyOf(v, fl);
  }

  // The pool gives back its own constants; a constant that shares its key with none is its own.
  lemma StoredResolves(g: Image, v: Value)
    requires PoolsOf(g) && Has(g.ix, Const(v), g.fl)
    ensures Resolves(g, Const(Stored(v, g.ix, g.fl)))
    ensures IndexOf(g.ix, Const(Stored(v, g.ix, g.fl)), g.fl) == IndexOf(g.ix, Const(v), g.fl)
    ensures !v.Double? && !v.List? && !v.Map? ==> Stored(v, g.ix, g.fl) == v
  {
    var u := g.ix.consts.items[g.ix.consts.index[KeyOf(v, g.fl)]];
    assert KeyOf(u, g.fl) == KeyOf(v, g.fl);
    if !v.Double? && !v.List? && !v.Map? { PlainStored(v, g.ix, g.fl); }
  }

  // The same for all items at once.
  ghost predicate Backed(g: Image) {
    (forall v {:trigger Stored(v, g.ix, g.fl)} :: Has(g.ix, Const(v), g.fl) ==>
      Resolves(g, Const(Stored(v, g.ix, g.fl))) &&
      IndexOf(g.ix, Const(Stored(v, g.ix, g.fl)), g.fl) == IndexOf(g.ix, Const(v), g.fl) &&
      (!v.Double? && !v.List? && !v.Map? ==> Stored(v, g.ix, g.fl) == v)) &&
    (forall a :: Has(g.ix, Factor(a), g.fl) ==> Resolves(g, Factor(a))) &&
    (forall f :: Has(g.ix, Name(f), g.fl) ==> Resolves(g, Name(f)))
  }

  lemma PoolsBack(g: Image)
    requires PoolsOf(g)
    ensures Backed(g)
  {
    forall v | Has(g.ix, Const(v), g.fl)
      ensures Resolves(g, Const(Stored(v, g.ix, g.fl)))
      ensures IndexOf(g.ix, Const(Stored(v, g.ix, g.fl)), g.fl) == IndexOf(g.ix, Const(v), g.fl)
      ensures !v.Double? && !v.List? && !v.Map? ==> Stored(v, g.ix, g.fl) == v
    {
      StoredResolves(g, v);
    }
  }

  lemma {:induction false} RepresentedFaithful(g: Image, e: Bound, base: nat)
    requires Backed(g) && CodeAt(g.p.instructions, e, base, g.ix, g.fl) && Covers(g.ix, Items(e), g.fl)
    ensures Faithful(g, e, base)
    decreases e, 1
  {
    match e
    case Literal(v, _) => var stored := Stored(v, g.ix, g.fl);
    case Ref(_, _) =>
    case Unary(_, _, _) => RepresentedFaithfulUnary(g, e, base);
    case Binary(_, _, _, _) => RepresentedFaithfulBinary(g, e, base);
    case Cond(_, _, _, _) => RepresentedFaithfulCond(g, e, base);
    case Call(_, _, _) => RepresentedFaithfulCall(g, e, base);
    case ListOf(es, _, _) => RepresentedFaithfulAll(g, es, base);
    case MapOf(_, _, _) => RepresentedFaithfulMap(g, e, base);
  }

  lemma {:induction false} RepresentedFaithfulUnary(g: Image, e: Bound, base: nat)
    requires e.Unary? && Backed(g) && CodeAt(g.p.instructions, e, base, g.ix, g.fl) && Covers(g.ix, Items(e), g.fl)
    ensures Faithful(g, e, base)
    decreases e, 0
  {
    assert UnaryAt(g.p.instructions, e, base, g.ix, g.fl);
    RepresentedFaithful(g, e.operand, base);
    assert UnaryAt(g.p.instructions, Represented(e, g.ix, g.fl), base, g.ix, g.fl);
  }

  lemma {:induction false} RepresentedFaithfulCall(g: Image, e: Bound, base: nat)
    requires e.Call? && Backed(g) && CodeAt(g.p.instructions, e, base, g.ix, g.fl) && Covers(g.ix, Items(e), g.fl)
    ensures Faithful(g, e, base)
    decreases e, 0, 1
  {
    assert Name(e.fn) in Items(e);
    RepresentedFaithfulAll(g, e.args, base);
  }

  lemma {:induction false} RepresentedFaithfulMap(g: Image, e: Bound, base: nat)
    requires e.MapOf? && Backed(g) && CodeAt(g.p.instructions, e, base, g.ix, g.fl) && Covers(g.ix, Items(e), g.fl)
    ensures Faithful(g, e, base)
    decreases e, 0, 1
  {
    RepresentedFaithfulEntries(g, e.entries, base);
  }

  lemma {:induction false} RepresentedFaithfulBinary(g: Image, e: Bound, base: nat)
    requires e.Binary? && Backed(g) && CodeAt(g.p.instructions, e, base, g.ix, g.fl) && Covers(g.ix, Items(e), g.fl)
    ensures Faithful(g, e, base)
    decreases e, 0, 1
  {
    if e.bop.Strict? { RepresentedFaithfulStrict(g, e, base); } else { RepresentedFaithfulShortCircuit(g, e, base); }
  }

  lemma {:induction false} RepresentedFaithfulStrict(g: Image, e: Bound, base: nat)
    requires e.Binary? && e.bop.Strict?
    requires Backed(g) && CodeAt(g.p.instructions, e, base, g.ix, g.fl) && Covers(g.ix, Items(e), g.fl)
    ensures Faithful(g, e, base)
    decreases e, 0, 0
  {
    assert StrictAt(g.p.instructions, e, base, g.ix, g.fl);
    RepresentedFaithful(g, e.left, base);
    RepresentedFaithful(g, e.right, base + Size(e.left));
    assert StrictAt(g.p.instructions, Represented(e, g.ix, g.fl), base, g.ix, g.fl);
  }

  lemma {:induction false} RepresentedFaithfulShortCircuit(g: Image, e: Bound, base: nat)
    requires e.Binary? && !e.bop.Strict?
    requires Backed(g) && CodeAt(g.p.instructions, e, base, g.ix, g.fl) && Covers(g.ix, Items(e), g.fl)
    ensures Faithful(g, e, base)
    decreases e, 0, 0
  {
    assert ShortCircuitAt(g.p.instructions, e, base, g.ix, g.fl);
    assert Const(Bool(e.bop.Or?)) in Items(e);
    var stored := Stored(Bool(e.bop.Or?), g.ix, g.fl);
    RepresentedFaithful(g, e.left, base);
    RepresentedFaithful(g, e.right, base + Size(e.left) + 1);
    assert ShortCircuitAt(g.p.instructions, Represented(e, g.ix, g.fl), base, g.ix, g.fl);
  }

  lemma {:induction false} RepresentedFaithfulCond(g: Image, e: Bound, base: nat)
    requires e.Cond? && Backed(g) && CodeAt(g.p.instructions, e, base, g.ix, g.fl) && Covers(g.ix, Items(e), g.fl)
    ensures Faithful(g, e, base)
    decreases e, 0
  {
    var thn := base + Size(e.cond) + 1;
    assert CondAt(g.p.instructions, e, base, g.ix, g.fl);
    RepresentedFaithful(g, e.cond, base);
    RepresentedFaithful(g, e.thn, thn);
    RepresentedFaithful(g, e.els, thn + Size(e.thn) + 1);
    assert CondAt(g.p.instructions, Represented(e, g.ix, g.fl), base, g.ix, g.fl);
  }

  lemma {:induction false} RepresentedFaithfulAll(g: Image, es: seq<Bound>, base: nat)
    requires Backed(g) && CodeAllAt(g.p.instructions, es, base, g.ix, g.fl) && Covers(g.ix, ItemsAll(es), g.fl)
    ensures FaithfulAll(g, es, base)
    decreases es, 0
  {
    if es != [] {
      var init, last := es[..|es| - 1], es[|es| - 1];
      RepresentedFaithfulAll(g, init, base);
      RepresentedFaithful(g, last, base + SizeAll(init));
      assert RepresentedAll(es, g.ix, g.fl)[..|es| - 1] == RepresentedAll(init, g.ix, g.fl);
    }
  }

  lemma {:induction false} RepresentedFaithfulEntries(g: Image, es: seq<Entry>, base: nat)
    requires Backed(g) && CodeEntriesAt(g.p.instructions, es, base, g.ix, g.fl) && Covers(g.ix, ItemsEntries(es), g.fl)
    ensures FaithfulEntries(g, es, base)
    decreases es, 0
  {
    if es != [] {
      var init, last := es[..|es| - 1], es[|es| - 1];
      assert Const(Str(last.key)) in ItemsEntries(es);
      RepresentedFaithfulEntries(g, init, base);
      RepresentedFaithfulEntry(g, last, base + SizeEntries(init));
      EntriesJoined(g, RepresentedEntries(init, g.ix, g.fl),
                    Entry(last.key, Represented(last.value, g.ix, g.fl)), base);
      EntriesMeasured(es);
    }
  }

  lemma EntriesJoined(g: Image, rs: seq<Entry>, r: Entry, base: nat)
    requires CodeEntriesAt(g.p.instructions, rs, base, g.ix, g.fl) && ResolvesAll(g, ItemsEntries(rs))
    requires CodeEntryAt(g.p.instructions, r, base + SizeEntries(rs), g.ix, g.fl)
    requires Resolves(g, Const(Str(r.key))) && ResolvesAll(g, Items(r.value))
    ensures CodeEntriesAt(g.p.instructions, rs + [r], base, g.ix, g.fl) && ResolvesAll(g, ItemsEntries(rs + [r]))
    ensures SizeEntries(rs + [r]) == SizeEntries(rs) + 1 + Size(r.value)
    ensures DepthEntries(rs + [r]) == Max(DepthEntries(rs), 2 * |rs| + 1 + Depth(r.value))
  {
    assert (rs + [r])[..|rs|] == rs;
  }

  lemma EntriesMeasured(es: seq<Entry>)
    requires es != []
    ensures SizeEntries(es) == SizeEntries(es[..|es| - 1]) + 1 + Size(es[|es| - 1].value)
    ensures DepthEntries(es) == Max(DepthEntries(es[..|es| - 1]), 2 * |es| - 1 + Depth(es[|es| - 1].value))
  {
  }

  lemma {:induction false} RepresentedFaithfulEntry(g: Image, e: Entry, at: nat)
    requires Backed(g) && CodeEntryAt(g.p.instructions, e, at, g.ix, g.fl)
    requires Has(g.ix, Const(Str(e.key)), g.fl) && Covers(g.ix, Items(e.value), g.fl)
    ensures Resolves(g, Const(Str(e.key))) && Faithful(g, e.value, at + 1)
    ensures CodeEntryAt(g.p.instructions, Entry(e.key, Represented(e.value, g.ix, g.fl)), at, g.ix, g.fl)
    decreases e, 0
  {
    var stored := Stored(Str(e.key), g.ix, g.fl);
    RepresentedFaithful(g, e.value, at + 1);
  }

  // What every compiled program does, for any tree, any earlier contents of the pools and any
  // context: exactly the raw meaning of the tree with its constants as the pool stores them, unless
  // a budget it may exceed runs out.
  lemma CompiledMeansStored(p: Program, e: Bound, before: PoolSet, after: PoolSet, env: Env, lim: Limits)
    requires ProgramOf(p, e, before, after, env.fl)
    ensures Agree(Execute(p, env, lim), EvalIn(Represented(e, after, env.fl), env, Raw), WithinLimits(e, lim))
  {
    var m, stored := MachineFor(p, env, lim, after), Represented(e, after, env.fl);
    PoolsBack(m.Img());
    RepresentedFaithful(m.Img(), e, 0);
    var c, r, start := Coded(m.Img(), stored, 0), EvalIn(stored, env, Raw), Run(p, env, lim, 0, [], 0);
    var k := Simulate(m, stored, 0, [], 0);
    if r.Ok? {
      assert [] + [r.value] == [r.value];
      var end := Run(p, env, lim, Size(e), [r.value], k);
    }
  }

  // Unambiguous constants are stored as they are.
  lemma UnambiguousStored(p: Program, e: Bound, before: PoolSet, after: PoolSet, v: Value, fl: FloatOps)
    requires ProgramOf(p, e, before, after, fl) && Unambiguous(e, before, fl) && Const(v) in Items(e)
    ensures Stored(v, after, fl) == v
  {
    var u := after.consts.items[after.consts.index[KeyOf(v, fl)]];
    InternAllOrigin(before, Items(e), fl);
    assert u in after.consts.items;
    assert v in ItemConstants(Items(e));
    if Const(u) in Items(e) { assert u in ItemConstants(Items(e)); }
  }

  ghost predicate AllStored(its: seq<Item>, ix: PoolSet, fl: FloatOps) {
    forall it | it in its && it.Const? :: Stored(it.v, ix, fl) == it.v
  }

  lemma {:induction false} StoredUnchanged(e: Bound, ix: PoolSet, fl: FloatOps)
    requires AllStored(Items(e), ix, fl)
    ensures Represented(e, ix, fl) == e
    decreases e, 1
  {
    match e
    case Literal(v, _) => assert Const(v) in Items(e);
    case Ref(_, _) =>
    case Unary(_, x, _) => StoredUnchanged(x, ix, fl);
    case Binary(_, l, r, _) =>
      StoredUnchanged(l, ix, fl);
      StoredUnchanged(r, ix, fl);
    case Cond(c, t, f, _) =>
      StoredUnchanged(c, ix, fl);
      StoredUnchanged(t, ix, fl);
      StoredUnchanged(f, ix, fl);
    case Call(_, args, _) => StoredUnchangedAll(args, ix, fl);
    case ListOf(es, _, _) => StoredUnchangedAll(es, ix, fl);
    case MapOf(es, _, _) => StoredUnchangedEntries(es, ix, fl);
  }

  lemma {:induction false} StoredUnchangedAll(es: seq<Bound>, ix: PoolSet, fl: FloatOps)
    requires AllStored(ItemsAll(es), ix, fl)
    ensures RepresentedAll(es, ix, fl) == es
    decreases es, 0
  {
    if es != [] {
      StoredUnchangedAll(es[..|es| - 1], ix, fl);
      StoredUnchanged(es[|es| - 1], ix, fl);
    }
  }

  lemma {:induction false} StoredUnchangedEntries(es: seq<Entry>, ix: PoolSet, fl: FloatOps)
    requires AllStored(ItemsEntries(es), ix, fl)
    ensures RepresentedEntries(es, ix, fl) == es
    decreases es, 0
  {
    if es != [] {
      StoredUnchangedEntries(es[..|es| - 1], ix, fl);
      StoredUnchanged(es[|es| - 1].value, ix, fl);
    }
  }

  // The converse: constants all of which come back as they are.
  lemma {:induction false} UnchangedStored(e: Bound, ix: PoolSet, fl: FloatOps)
    requires ValidSet(ix, fl) && Covers(ix, Items(e), fl) && Represented(e, ix, fl) == e
    ensures AllStored(Items(e), ix, fl)
    decreases e, 2
  {
    match e
    case Literal(_, _) =>
    case Ref(_, _) =>
    case Unary(_, x, _) => UnchangedStored(x, ix, fl);
    case Binary(_, _, _, _) => UnchangedStoredBinary(e, ix, fl);
    case Cond(_, _, _, _) => UnchangedStoredCond(e, ix, fl);
    case Call(_, args, _) => UnchangedStoredAll(args, ix, fl);
    case ListOf(es, _, _) => UnchangedStoredAll(es, ix, fl);
    case MapOf(es, _, _) => UnchangedStoredEntries(es, ix, fl);
  }

  lemma {:induction false} UnchangedStoredBinary(e: Bound, ix: PoolSet, fl: FloatOps)
    requires e.Binary? && ValidSet(ix, fl) && Covers(ix, Items(e), fl) && Represented(e, ix, fl) == e
    ensures AllStored(Items(e), ix, fl)
    decreases e, 1
  {
    UnchangedStored(e.left, ix, fl);
    UnchangedStored(e.right, ix, fl);
    if !e.bop.Strict? {
      assert Const(Bool(e.bop.Or?)) in Items(e);
      PlainStored(Bool(e.bop.Or?), ix, fl);
    }
  }

  lemma {:induction false} UnchangedStoredCond(e: Bound, ix: PoolSet, fl: FloatOps)
    requires e.Cond? && ValidSet(ix, fl) && Covers(ix, Items(e), fl) && Represented(e, ix, fl) == e
    ensures AllStored(Items(e), ix, fl)
    decreases e, 1
  {
    UnchangedStored(e.cond, ix, fl);
    UnchangedStored(e.thn, ix, fl);
    UnchangedStored(e.els, ix, fl);
  }

  lemma {:induction false} UnchangedStoredAll(es: seq<Bound>, ix: PoolSet, fl: FloatOps)
    requires ValidSet(ix, fl) && Covers(ix, ItemsAll(es), fl) && RepresentedAll(es, ix, fl) == es
    ensures AllStored(ItemsAll(es), ix, fl)
    decreases es, 0
  {
    if es != [] {
      assert RepresentedAll(es, ix, fl)[..|es| - 1] == RepresentedAll(es[..|es| - 1], ix, fl);
      UnchangedStoredAll(es[..|es| - 1], ix, fl);
      UnchangedStored(es[|es| - 1], ix, fl);
    }
  }

  lemma {:induction false} UnchangedStoredEntries(es: seq<Entry>, ix: PoolSet, fl: FloatOps)
    requires ValidSet(ix, fl) && Covers(ix, ItemsEntries(es), fl) && RepresentedEntries(es, ix, fl) == es
    ensures AllStored(ItemsEntries(es), ix, fl)
    decreases es, 0
  {
    if es != [] {
      assert RepresentedEntries(es, ix, fl)[..|es| - 1] == RepresentedEntries(es[..|es| - 1], ix, fl);
      assert Const(Str(es[|es| - 1].key)) in ItemsEntries(es);
      PlainStored(Str(es[|es| - 1].key), ix, fl);
      UnchangedStoredEntries(es[..|es| - 1], ix, fl);
      UnchangedStored(es[|es| - 1].value, ix, fl);
    }
  }

  // A compiled program's constants are those of its tree exactly if no two constants, asked for or already
  // there, share a key.
  lemma ConstantsExact(p: Program, e: Bound, before: PoolSet, after: PoolSet, fl: FloatOps)
    requires ProgramOf(p, e, before, after, fl) && ValidSet(before, fl)
    ensures Represented(e, after, fl) == e <==> Unambiguous(e, before, fl)
  {
    if Unambiguous(e, before, fl) {
      forall it | it in Items(e) && it.Const? ensures Stored(it.v, after, fl) == it.v {
        UnambiguousStored(p, e, before, after, it.v, fl);
      }
      StoredUnchanged(e, after, fl);
    }
    if Represented(e, after, fl) == e {
      UnchangedStored(e, after, fl);
      forall v | v in before.consts.items || v in ItemConstants(Items(e)) ensures Stored(v, after, fl) == v {
        if v in before.consts.items { KeptStored(before, after, v, fl); } else { assert Const(v) in Items(e); }
      }
    }
  }

  lemma KeptStored(before: PoolSet, after: PoolSet, v: Value, fl: FloatOps)
    requires ValidSet(before, fl) && ValidSet(after, fl) && ExtendsSet(before, after) && v in before.consts.items
    ensures Stored(v, after, fl) == v
  {
    var i :| 0 <= i < |before.consts.items| && before.consts.items[i] == v;
    assert before.consts.index[KeyOf(v, fl)] == i && after.consts.items[i] == v;
  }

  // Code generation preserves meaning: with unambiguous constants the machine returns exactly the
  // tree's raw value or error.
  lemma CompiledMeansRaw(p: Program, e: Bound, before: PoolSet, after: PoolSet, env: Env, lim: Limits)
    requires ProgramOf(p, e, before, after, env.fl) && Unambiguous(e, before, env.fl)
    ensures Agree(Execute(p, env, lim), EvalIn(e, env, Raw), WithinLimits(e, lim))
  {
    forall it | it in Items(e) && it.Const? ensures Stored(it.v, after, env.fl) == it.v {
      UnambiguousStored(p, e, before, after, it.v, env.fl);
    }
    StoredUnchanged(e, after, env.fl);
    CompiledMeansStored(p, e, before, after, env, lim);
  }

  // End to end: folding, code generation and the peephole pass together agree with the interpreter
  // on the tree as the binder left it.
  lemma CompiledMeansEval(p: Program, e: Bound, before: PoolSet, after: PoolSet, env: Env, lim: Limits)
    requires ProgramOf(p, Fold(e, env.fl), before, after, env.fl) && Unambiguous(Fold(e, env.fl), before, env.fl)
    requires BoolRights(e, env, false)
    ensures Agree(Execute(p, env, lim), Eval(e, env), WithinLimits(Fold(e, env.fl), lim))
  {
    CompiledMeansRaw(p, Fold(e, env.fl), before, after, env, lim);
    OperandAgrees(e, env, false);
  }

  // Where the result is only tested, as a rule's verdict is, less is needed.
  lemma CompiledMeansTest(p: Program, e: Bound, before: PoolSet, after: PoolSet, env: Env, lim: Limits)
    requires ProgramOf(p, Fold(e, env.fl), before, after, env.fl) && Unambiguous(Fold(e, env.fl), before, env.fl)
    requires BoolRights(e, env, true)
    ensures SameTest(Execute(p, env, lim), Eval(e, env)) ||
            (!WithinLimits(Fold(e, env.fl), lim) && Interrupted(Execute(p, env, lim)))
  {
    CompiledMeansRaw(p, Fold(e, env.fl), before, after, env, lim);
    OperandAgrees(e, env, true);
  }

  // The errors evaluation itself can report.
  predicate EvaluationError(c: ErrorCode) {
    c.TypeMismatch? || c.DivisionByZero? || c.InternalPanic?
  }

  lemma {:induction false} EvalErrors(e: Bound, env: Env, m: RightOperand)
    requires EvalIn(e, env, m).Err?
    ensures EvaluationError(EvalIn(e, env, m).code)
    decreases e, 1
  {
    match e
    case Literal(_, _) =>
    case Ref(_, _) =>
    case Unary(_, x, _) => if EvalIn(x, env, m).Err? { EvalErrors(x, env, m); }
    case Binary(_, l, r, _) =>
      if EvalIn(l, env, m).Err? { EvalErrors(l, env, m); }
      if EvalIn(r, env, m).Err? { EvalErrors(r, env, m); }
    case Cond(c, t, f, _) =>
      if EvalIn(c, env, m).Err? { EvalErrors(c, env, m); }
      if EvalIn(t, env, m).Err? { EvalErrors(t, env, m); }
      if EvalIn(f, env, m).Err? { EvalErrors(f, env, m); }
    case Call(_, args, _) => EvalAllErrors(args, env, m);
    case ListOf(es, _, _) => EvalAllErrors(es, env, m);
    case MapOf(es, _, _) => EvalEntriesErrors(es, env, m);
  }

  lemma {:induction false} EvalAllErrors(es: seq<Bound>, env: Env, m: RightOperand)
    ensures EvalAllIn(es, env, m).Err? ==> EvaluationError(EvalAllIn(es, env, m).code)
    decreases es, 0
  {
    if es != [] {
      EvalAllErrors(es[..|es| - 1], env, m);
      if EvalIn(es[|es| - 1], env, m).Err? { EvalErrors(es[|es| - 1], env, m); }
    }
  }

  lemma {:induction false} EvalEntriesErrors(es: seq<Entry>, env: Env, m: RightOperand)
    ensures EvalEntriesIn(es, env, m).Err? ==> EvaluationError(EvalEntriesIn(es, env, m).code)
    decreases es, 0
  {
    if es != [] {
      EvalEntriesErrors(es[..|es| - 1], env, m);
      if EvalIn(es[|es| - 1].value, env, m).Err? { EvalErrors(es[|es| - 1].value, env, m); }
    }
  }

  // Stack discipline: no compiled program ever underflows its stack, uses an index outside a pool,
  // takes a bad jump, meets an unknown instruction or ends with anything but one value. Within the
  // limits it never reports a budget either.
  lemma CompiledWellBehaved(p: Program, e: Bound, before: PoolSet, after: PoolSet, env: Env, lim: Limits)
    requires ProgramOf(p, e, before, after, env.fl)
    ensures var r := Execute(p, env, lim);
            r.Err? ==>
              (r == EvalIn(Represented(e, after, env.fl), env, Raw) && EvaluationError(r.code)) ||
              (!WithinLimits(e, lim) && Interrupted(r))
  {
    CompiledMeansStored(p, e, before, after, env, lim);
    var stored := Represented(e, after, env.fl);
    if EvalIn(stored, env, Raw).Err? { EvalErrors(stored, env, Raw); }
  }

  // Whether evaluation gets to the right operand of && or ||.
  predicate RightReached(e: Bound, env: Env)
    requires e.Binary? && !e.bop.Strict?
  {
    Eval(e.left, env).Ok? && Truthy(Eval(e.left, env).value) == e.bop.And?
  }

  // When operands are fine, the compiled && or || differs from the interpreted one exactly if the
  // right operand is reached, has a value that is no boolean, and was not folded away.
  lemma ShortCircuitExact(p: Program, e: Bound, before: PoolSet, after: PoolSet, env: Env, lim: Limits)
    requires e.Binary? && !e.bop.Strict? && BoolRights(e.left, env, true)
    requires RightReached(e, env) ==> BoolRights(e.right, env, false)
    requires ProgramOf(p, Fold(e, env.fl), before, after, env.fl) && Unambiguous(Fold(e, env.fl), before, env.fl)
    requires WithinLimits(Fold(e, env.fl), lim)
    ensures Execute(p, env, lim) != Eval(e, env) <==>
            RightReached(e, env) && Eval(e.right, env).Ok? && !Eval(e.right, env).value.Bool? &&
            !(Fold(e.left, env.fl).Literal? && Fold(e.right, env.fl).Literal?)
  {
    var l, r := Fold(e.left, env.fl), Fold(e.right, env.fl);
    CompiledMeansRaw(p, Fold(e, env.fl), before, after, env, lim);
    OperandAgrees(e.left, env, true);
    if RightReached(e, env) { OperandAgrees(e.right, env, false); }
    RawShortCircuit(e.bop, l, r, e.info, env);
    assert Fold(e, env.fl) == FoldBinary(Binary(e.bop, l, r, e.info), env.fl);
  }

  lemma RawShortCircuit(op: BinOp, l: Bound, r: Bound, info: Info, env: Env)
    requires !op.Strict?
    ensures var lv := EvalIn(l, env, Raw);
            EvalIn(Binary(op, l, r, info), env, Raw) ==
            if lv.Err? then lv else if Truthy(lv.value) != op.And? then Ok(Bool(op.Or?)) else EvalIn(r, env, Raw)
  {
  }

  lemma OperandAgrees(e: Bound, env: Env, tested: bool)
    requires BoolRights(e, env, tested)
    ensures SameFor(EvalIn(Fold(e, env.fl), env, Raw), Eval(e, env), tested) &&
            Eval(Fold(e, env.fl), env) == Eval(e, env)
  {
    FoldKeepsBoolRights(e, env, tested);
    RawAgrees(Fold(e, env.fl), env, tested);
    FoldPreserves(e, env);
  }

  // A static guarantee for callers: right operands of these forms are never null.
  predicate NeverNull(e: Bound)
    decreases e
  {
    match e
    case Literal(v, _) => v.Bool?
    case Unary(op, _, _) => op.Not?
    case Binary(Strict(op), _, _, _) => op in {Lt, Le, Gt, Ge, Eq, Ne}
    case Binary(_, _, _, _) => true
    case Cond(_, t, f, _) => NeverNull(t) && NeverNull(f)
    case Call(fn, _, _) => fn != Get
    case _ => false
  }

  lemma {:induction false} NeverNullIsBool(e: Bound, env: Env)
    requires NeverNull(e) && Eval(e, env).Ok?
    ensures Eval(e, env).value.Bool?
    decreases e
  {
    match e
    case Cond(_, t, f, _) =>
      if Eval(t, env).Ok? { NeverNullIsBool(t, env); }
      if Eval(f, env).Ok? { NeverNullIsBool(f, env); }
    case _ =>
  }

  // Every right operand of && and || in the tree is of such a form, or only tested.
  predicate SafeRights(e: Bound, tested: bool)
    decreases e
  {
    match e
    case Literal(_, _) => true
    case Ref(_, _) => true
    case Unary(_, x, _) => SafeRights(x, false)
    case Binary(Strict(_), l, r, _) => SafeRights(l, false) && SafeRights(r, false)
    case Binary(_, l, r, _) => SafeRights(l, true) && SafeRights(r, tested) && (tested || NeverNull(r))
    case Cond(c, t, f, _) => SafeRights(c, true) && SafeRights(t, tested) && SafeRights(f, tested)
    case Call(_, args, _) => forall i | 0 <= i < |args| :: SafeRights(args[i], false)
    case ListOf(es, _, _) => forall i | 0 <= i < |es| :: SafeRights(es[i], false)
    case MapOf(es, _, _) => forall i | 0 <= i < |es| :: SafeRights(es[i].value, false)
  }

  lemma {:induction false} SafeRightsSuffice(e: Bound, env: Env, tested: bool)
    requires SafeRights(e, tested)
    ensures BoolRights(e, env, tested)
    decreases e, 1
  {
    match e
    case Literal(_, _) =>
    case Ref(_, _) =>
    case Unary(_, x, _) => SafeRightsSuffice(x, env, false);
    case Binary(op, l, r, _) =>
      SafeRightsSuffice(l, env, !op.Strict?);
      SafeRightsSuffice(r, env, !op.Strict? && tested);
      if !op.Strict? && !tested && Eval(r, env).Ok? { NeverNullIsBool(r, env); }
    case Cond(c, t, f, _) =>
      SafeRightsSuffice(c, env, true);
      SafeRightsSuffice(t, env, tested);
      SafeRightsSuffice(f, env, tested);
    case Call(_, args, _) => SafeRightsSufficeAll(args, env);
    case ListOf(es, _, _) => SafeRightsSufficeAll(es, env);
    case MapOf(es, _, _) => SafeRightsSufficeEntries(es, env);
  }

  lemma {:induction false} SafeRightsSufficeAll(es: seq<Bound>, env: Env)
    requires forall i | 0 <= i < |es| :: SafeRights(es[i], false)
    ensures AllBoolRights(es, env)
    decreases es, 0
  {
    if es != [] {
      SafeRightsSufficeAll(es[..|es| - 1], env);
      SafeRightsSuffice(es[|es| - 1], env, false);
    }
  }

  lemma {:induction false} SafeRightsSufficeEntries(es: seq<Entry>, env: Env)
    requires forall i | 0 <= i < |es| :: SafeRights(es[i].value, false)
    ensures EntriesBoolRights(es, env)
    decreases es, 0
  {
    if es != [] {
      SafeRightsSufficeEntries(es[..|es| - 1], env);
      SafeRightsSuffice(es[|es| - 1].value, env, false);
    }
  }

  // Constants other than doubles, lists and maps never share a key.
  lemma PlainConstantsDistinguished(vs: set<Value>, fl: FloatOps)
    requires forall v | v in vs :: !v.Double? && !v.List? && !v.Map?
    ensures Distinguished(vs, fl)
  {
  }
}
