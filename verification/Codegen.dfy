// The code generator as a function of the tree, the position its code starts at, and the indices
// the pools have handed out, with its size and the stack depth it needs.
module Codegen {
  import opened Values
  import opened Operators
  import opened Bound
  import opened Bytecode
  import opened Pools

  // Number of instructions.
  function Size(e: Bound): (n: nat)
    ensures n >= 1
    decreases e, 1
  {
    match e
    case Literal(_, _) => 1
    case Ref(_, _) => 1
    case Unary(_, x, _) => Size(x) + 1
    case Binary(Strict(_), l, r, _) => Size(l) + Size(r) + 1
    case Binary(_, l, r, _) => Size(l) + 1 + Size(r) + 2
    case Cond(c, t, f, _) => Size(c) + 1 + Size(t) + 1 + Size(f)
    case Call(_, args, _) => SizeAll(args) + 1
    case ListOf(es, _, _) => SizeAll(es) + 1
    case MapOf(es, _, _) => SizeEntries(es) + 1
  }

  function SizeAll(es: seq<Bound>): nat
    decreases es, 0
  {
    if es == [] then 0 else SizeAll(es[..|es| - 1]) + Size(es[|es| - 1])
  }

  function SizeEntries(es: seq<Entry>): nat
    decreases es, 0
  {
    if es == [] then 0 else SizeEntries(es[..|es| - 1]) + 1 + Size(es[|es| - 1].value)
  }

  function Max(a: nat, b: nat): nat { if a < b then b else a }

  // Stack slots above the ones in use when the code starts.
  function Depth(e: Bound): (n: nat)
    ensures n >= 1
    decreases e, 1
  {
    match e
    case Literal(_, _) => 1
    case Ref(_, _) => 1
    case Unary(_, x, _) => Depth(x)
    case Binary(Strict(_), l, r, _) => Max(Depth(l), 1 + Depth(r))
    case Binary(_, l, r, _) => Max(Depth(l), Depth(r))
    case Cond(c, t, f, _) => Max(Depth(c), Max(Depth(t), Depth(f)))
    case Call(_, args, _) => Max(1, DepthAll(args))
    case ListOf(es, _, _) => Max(1, DepthAll(es))
    case MapOf(es, _, _) => Max(1, DepthEntries(es))
  }

  function DepthAll(es: seq<Bound>): (n: nat)
    ensures n >= |es|
    decreases es, 0
  {
    if es == [] then 0 else Max(DepthAll(es[..|es| - 1]), |es| - 1 + Depth(es[|es| - 1]))
  }

  function DepthEntries(es: seq<Entry>): (n: nat)
    ensures n >= 2 * |es|
    decreases es, 0
  {
    if es == [] then 0 else Max(DepthEntries(es[..|es| - 1]), 2 * |es| - 1 + Depth(es[|es| - 1].value))
  }

  function Plain(op: OpCode): Instruction { Instruction(op, 0, 0) }

  function Push(v: Value, ix: PoolSet, fl: FloatOps): Instruction {
    Instruction(PushConst, IndexOf(ix, Const(v), fl), 0)
  }

  predicate Holds(code: seq<Instruction>, at: nat, inst: Instruction) {
    at < |code| && code[at] == inst
  }

  // The instructions from `base` on are the code of the tree. Its length is Size(e), and every
  // instruction is determined: the code generator's output is specified by this and its length.
  ghost predicate CodeAt(code: seq<Instruction>, e: Bound, base: nat, ix: PoolSet, fl: FloatOps)
    decreases e, 1
  {
    match e
    case Literal(v, _) => Holds(code, base, Push(v, ix, fl))
    case Ref(a, _) => Holds(code, base, Instruction(LoadFactor, IndexOf(ix, Factor(a), fl), 0))
    case Unary(_, _, _) => UnaryAt(code, e, base, ix, fl)
    case Binary(op, _, _, _) =>
      if op.Strict? then StrictAt(code, e, base, ix, fl) else ShortCircuitAt(code, e, base, ix, fl)
    case Cond(_, _, _, _) => CondAt(code, e, base, ix, fl)
    case Call(f, args, _) =>
      CodeAllAt(code, args, base, ix, fl) &&
      Holds(code, base + SizeAll(args), Instruction(CallBuiltin, IndexOf(ix, Name(f), fl), |args|))
    case ListOf(es, _, _) =>
      CodeAllAt(code, es, base, ix, fl) && Holds(code, base + SizeAll(es), Instruction(MakeList, |es|, 0))
    case MapOf(es, _, _) =>
      CodeEntriesAt(code, es, base, ix, fl) && Holds(code, base + SizeEntries(es), Instruction(MakeMap, |es|, 0))
  }

  ghost predicate UnaryAt(code: seq<Instruction>, e: Bound, base: nat, ix: PoolSet, fl: FloatOps)
    requires e.Unary?
    decreases e, 0
  {
    CodeAt(code, e.operand, base, ix, fl) && Holds(code, base + Size(e.operand), Plain(UnaryOp(e.op)))
  }

  ghost predicate StrictAt(code: seq<Instruction>, e: Bound, base: nat, ix: PoolSet, fl: FloatOps)
    requires e.Binary? && e.bop.Strict?
    decreases e, 0
  {
    CodeAt(code, e.left, base, ix, fl) && CodeAt(code, e.right, base + Size(e.left), ix, fl) &&
    Holds(code, base + Size(e.left) + Size(e.right), Plain(BinaryOp(e.bop.op)))
  }

  // The left operand decides by a jump over the right one to a constant.
  ghost predicate ShortCircuitAt(code: seq<Instruction>, e: Bound, base: nat, ix: PoolSet, fl: FloatOps)
    requires e.Binary? && !e.bop.Strict?
    decreases e, 0
  {
    var mid := base + Size(e.left) + 1;
    var end := mid + Size(e.right) + 2;
    CodeAt(code, e.left, base, ix, fl) && Holds(code, mid - 1, Branch(e.bop, end - 1)) &&
    CodeAt(code, e.right, mid, ix, fl) && Holds(code, end - 2, Instruction(Jump, end, 0)) &&
    Holds(code, end - 1, Push(Bool(e.bop.Or?), ix, fl))
  }

  ghost predicate CondAt(code: seq<Instruction>, e: Bound, base: nat, ix: PoolSet, fl: FloatOps)
    requires e.Cond?
    decreases e, 0
  {
    var thn := base + Size(e.cond) + 1;
    var els := thn + Size(e.thn) + 1;
    CodeAt(code, e.cond, base, ix, fl) && Holds(code, thn - 1, Instruction(JumpIfFalse, els, 0)) &&
    CodeAt(code, e.thn, thn, ix, fl) && Holds(code, els - 1, Instruction(Jump, els + Size(e.els), 0)) &&
    CodeAt(code, e.els, els, ix, fl)
  }

  function Branch(op: BinOp, target: nat): Instruction {
    Instruction(if op.And? then JumpIfFalse else JumpIfTrue, target, 0)
  }

  ghost predicate CodeAllAt(code: seq<Instruction>, es: seq<Bound>, base: nat, ix: PoolSet, fl: FloatOps)
    decreases es, 0
  {
    es == [] ||
    (CodeAllAt(code, es[..|es| - 1], base, ix, fl) &&
     CodeAt(code, es[|es| - 1], base + SizeAll(es[..|es| - 1]), ix, fl))
  }

  ghost predicate CodeEntriesAt(code: seq<Instruction>, es: seq<Entry>, base: nat, ix: PoolSet, fl: FloatOps)
    decreases es, 0
  {
    es == [] ||
    (CodeEntriesAt(code, es[..|es| - 1], base, ix, fl) &&
     CodeEntryAt(code, es[|es| - 1], base + SizeEntries(es[..|es| - 1]), ix, fl))
  }

  // A map entry pushes its key and then its value.
  ghost predicate CodeEntryAt(code: seq<Instruction>, entry: Entry, base: nat, ix: PoolSet, fl: FloatOps)
    decreases entry, 2
  {
    Holds(code, base, Push(Str(entry.key), ix, fl)) && CodeAt(code, entry.value, base + 1, ix, fl)
  }

  // What the generator asks the pools for, in order.
  function Items(e: Bound): seq<Item>
    decreases e, 1
  {
    match e
    case Literal(v, _) => [Const(v)]
    case Ref(a, _) => [Factor(a)]
    case Unary(_, x, _) => Items(x)
    case Binary(op, l, r, _) =>
      Items(l) + Items(r) + (if op.Strict? then [] else [Const(Bool(op.Or?))])
    case Cond(c, t, f, _) => Items(c) + Items(t) + Items(f)
    case Call(f, args, _) => ItemsAll(args) + [Name(f)]
    case ListOf(es, _, _) => ItemsAll(es)
    case MapOf(es, _, _) => ItemsEntries(es)
  }

  function ItemsAll(es: seq<Bound>): seq<Item>
    decreases es, 0
  {
    if es == [] then [] else ItemsAll(es[..|es| - 1]) + Items(es[|es| - 1])
  }

  function ItemsEntries(es: seq<Entry>): seq<Item>
    decreases es, 0
  {
    if es == [] then [] else
    var last := es[|es| - 1];
    ItemsEntries(es[..|es| - 1]) + [Const(Str(last.key))] + Items(last.value)
  }

  // Every item of the tree has an index.
  ghost predicate Covers(ix: PoolSet, its: seq<Item>, fl: FloatOps) {
    forall it | it in its :: Has(ix, it, fl)
  }

  // Code stays the code of its tree while the pools grow, and whatever happens elsewhere.
  ghost predicate SameRange(code: seq<Instruction>, code': seq<Instruction>, from: nat, size: nat) {
    from + size <= |code'| && forall i | from <= i < from + size && i < |code| :: code'[i] == code[i]
  }

  lemma {:induction false} CodeStable(code: seq<Instruction>, code': seq<Instruction>, e: Bound, base: nat,
                                      ix: PoolSet, jx: PoolSet, fl: FloatOps)
    requires CodeAt(code, e, base, ix, fl) && SameRange(code, code', base, Size(e))
    requires ExtendsSet(ix, jx) && Covers(ix, Items(e), fl)
    ensures CodeAt(code', e, base, jx, fl)
    decreases e, 1
  {
    match e
    case Literal(v, _) => IndexStable(ix, jx, Const(v), fl);
    case Ref(a, _) => IndexStable(ix, jx, Factor(a), fl);
    case Unary(_, x, _) =>
      assert UnaryAt(code, e, base, ix, fl);
      CodeStable(code, code', x, base, ix, jx, fl);
      assert UnaryAt(code', e, base, jx, fl);
    case Binary(_, _, _, _) => CodeStableBinary(code, code', e, base, ix, jx, fl);
    case Cond(_, _, _, _) => CodeStableCond(code, code', e, base, ix, jx, fl);
    case Call(f, args, _) =>
      CodeStableAll(code, code', args, base, ix, jx, fl);
      IndexStable(ix, jx, Name(f), fl);
    case ListOf(es, _, _) => CodeStableAll(code, code', es, base, ix, jx, fl);
    case MapOf(es, _, _) => CodeStableEntries(code, code', es, base, ix, jx, fl);
  }

  lemma {:induction false} CodeStableBinary(code: seq<Instruction>, code': seq<Instruction>, e: Bound, base: nat,
                                            ix: PoolSet, jx: PoolSet, fl: FloatOps)
    requires e.Binary? && CodeAt(code, e, base, ix, fl) && SameRange(code, code', base, Size(e))
    requires ExtendsSet(ix, jx) && Covers(ix, Items(e), fl)
    ensures CodeAt(code', e, base, jx, fl)
    decreases e, 0
  {
    if e.bop.Strict? {
      assert StrictAt(code, e, base, ix, fl);
      CodeStable(code, code', e.left, base, ix, jx, fl);
      CodeStable(code, code', e.right, base + Size(e.left), ix, jx, fl);
      assert StrictAt(code', e, base, jx, fl);
    } else {
      assert ShortCircuitAt(code, e, base, ix, fl);
      assert Const(Bool(e.bop.Or?)) in Items(e);
      CodeStable(code, code', e.left, base, ix, jx, fl);
      CodeStable(code, code', e.right, base + Size(e.left) + 1, ix, jx, fl);
      IndexStable(ix, jx, Const(Bool(e.bop.Or?)), fl);
      assert ShortCircuitAt(code', e, base, jx, fl);
    }
  }

  lemma {:induction false} CodeStableCond(code: seq<Instruction>, code': seq<Instruction>, e: Bound, base: nat,
                                          ix: PoolSet, jx: PoolSet, fl: FloatOps)
    requires e.Cond? && CodeAt(code, e, base, ix, fl) && SameRange(code, code', base, Size(e))
    requires ExtendsSet(ix, jx) && Covers(ix, Items(e), fl)
    ensures CodeAt(code', e, base, jx, fl)
    decreases e, 0
  {
    assert CondAt(code, e, base, ix, fl);
    CodeStable(code, code', e.cond, base, ix, jx, fl);
    CodeStable(code, code', e.thn, base + Size(e.cond) + 1, ix, jx, fl);
    CodeStable(code, code', e.els, base + Size(e.cond) + 1 + Size(e.thn) + 1, ix, jx, fl);
    assert CondAt(code', e, base, jx, fl);
  }

  lemma {:induction false} CodeStableAll(code: seq<Instruction>, code': seq<Instruction>, es: seq<Bound>, base: nat,
                                         ix: PoolSet, jx: PoolSet, fl: FloatOps)
    requires CodeAllAt(code, es, base, ix, fl) && SameRange(code, code', base, SizeAll(es))
    requires ExtendsSet(ix, jx) && Covers(ix, ItemsAll(es), fl)
    ensures CodeAllAt(code', es, base, jx, fl)
    decreases es, 0
  {
    if es != [] {
      CodeStableAll(code, code', es[..|es| - 1], base, ix, jx, fl);
      CodeStable(code, code', es[|es| - 1], base + SizeAll(es[..|es| - 1]), ix, jx, fl);
    }
  }

  lemma {:induction false} CodeStableEntries(code: seq<Instruction>, code': seq<Instruction>, es: seq<Entry>, base: nat,
                                             ix: PoolSet, jx: PoolSet, fl: FloatOps)
    requires CodeEntriesAt(code, es, base, ix, fl) && SameRange(code, code', base, SizeEntries(es))
    requires ExtendsSet(ix, jx) && Covers(ix, ItemsEntries(es), fl)
    ensures CodeEntriesAt(code', es, base, jx, fl)
    decreases es, 0
  {
    if es != [] {
      var last := es[|es| - 1];
      CodeStableEntries(code, code', es[..|es| - 1], base, ix, jx, fl);
      assert Const(Str(last.key)) in ItemsEntries(es);
      IndexStable(ix, jx, Const(Str(last.key)), fl);
      CodeStable(code, code', last.value, base + SizeEntries(es[..|es| - 1]) + 1, ix, jx, fl);
    }
  }

  // Every jump goes forward over at least one instruction and no further than the limit.
  ghost predicate ForwardJumps(code: seq<Instruction>, from: nat, to: nat, limit: nat) {
    to <= |code| && forall i | from <= i < to && IsJump(code[i].op) :: i + 1 < code[i].arg <= limit
  }

  // Generated code jumps only forward and never out of the code of the tree it belongs to.
  lemma {:induction false} CodeForward(code: seq<Instruction>, e: Bound, base: nat, ix: PoolSet, fl: FloatOps)
    requires CodeAt(code, e, base, ix, fl)
    ensures ForwardJumps(code, base, base + Size(e), base + Size(e))
    decreases e, 1
  {
    match e
    case Literal(_, _) =>
    case Ref(_, _) =>
    case Unary(_, x, _) =>
      assert UnaryAt(code, e, base, ix, fl);
      CodeForward(code, x, base, ix, fl);
    case Binary(_, _, _, _) => CodeForwardBinary(code, e, base, ix, fl);
    case Cond(_, _, _, _) => CodeForwardCond(code, e, base, ix, fl);
    case Call(_, args, _) => CodeForwardAll(code, args, base, ix, fl);
    case ListOf(es, _, _) => CodeForwardAll(code, es, base, ix, fl);
    case MapOf(es, _, _) => CodeForwardEntries(code, es, base, ix, fl);
  }

  lemma {:induction false} CodeForwardBinary(code: seq<Instruction>, e: Bound, base: nat, ix: PoolSet, fl: FloatOps)
    requires e.Binary? && CodeAt(code, e, base, ix, fl)
    ensures ForwardJumps(code, base, base + Size(e), base + Size(e))
    decreases e, 0
  {
    if e.bop.Strict? {
      assert StrictAt(code, e, base, ix, fl);
      CodeForward(code, e.left, base, ix, fl);
      CodeForward(code, e.right, base + Size(e.left), ix, fl);
    } else {
      assert ShortCircuitAt(code, e, base, ix, fl);
      CodeForward(code, e.left, base, ix, fl);
      CodeForward(code, e.right, base + Size(e.left) + 1, ix, fl);
    }
  }

  lemma {:induction false} CodeForwardCond(code: seq<Instruction>, e: Bound, base: nat, ix: PoolSet, fl: FloatOps)
    requires e.Cond? && CodeAt(code, e, base, ix, fl)
    ensures ForwardJumps(code, base, base + Size(e), base + Size(e))
    decreases e, 0
  {
    var thn := base + Size(e.cond) + 1;
    assert CondAt(code, e, base, ix, fl);
    CodeForward(code, e.cond, base, ix, fl);
    CodeForward(code, e.thn, thn, ix, fl);
    CodeForward(code, e.els, thn + Size(e.thn) + 1, ix, fl);
  }

  lemma {:induction false} CodeForwardAll(code: seq<Instruction>, es: seq<Bound>, base: nat, ix: PoolSet, fl: FloatOps)
    requires CodeAllAt(code, es, base, ix, fl) && base <= |code|
    ensures ForwardJumps(code, base, base + SizeAll(es), base + SizeAll(es))
    decreases es, 0
  {
    if es != [] {
      CodeForwardAll(code, es[..|es| - 1], base, ix, fl);
      CodeForward(code, es[|es| - 1], base + SizeAll(es[..|es| - 1]), ix, fl);
    }
  }

  lemma {:induction false} CodeForwardEntries(code: seq<Instruction>, es: seq<Entry>, base: nat, ix: PoolSet,
                                              fl: FloatOps)
    requires CodeEntriesAt(code, es, base, ix, fl) && base <= |code|
    ensures ForwardJumps(code, base, base + SizeEntries(es), base + SizeEntries(es))
    decreases es, 0
  {
    if es != [] {
      CodeForwardEntries(code, es[..|es| - 1], base, ix, fl);
      CodeForward(code, es[|es| - 1].value, base + SizeEntries(es[..|es| - 1]) + 1, ix, fl);
    }
  }
}
