// The bytecode compiler: pools and code that grow in place, and jumps that are patched afterwards.
module Compiler {
  import opened Values
  import opened Operators
  import opened Schema
  import opened Bound
  import opened Bytecode
  import opened Pools
  import opened Codegen
  import opened Folding
  import opened Peephole

  // The instruction slice that the emitting methods share through a pointer.
  class CodeBuffer {
    var code: seq<Instruction>

    constructor ()
      ensures code == []
    {
      code := [];
    }

    method Append(inst: Instruction)
      modifies this
      ensures code == old(code) + [inst]
    {
      code := code + [inst];
    }

    // Filling in the target of a jump emitted earlier.
    method Patch(idx: nat, target: nat)
      requires idx < |code|
      modifies this
      ensures code == Retargeted(old(code), idx, target)
    {
      code := code[idx := code[idx].(arg := target)];
    }
  }

  class BytecodeCompiler {
    const fl: FloatOps
    var constIndex: map<ConstKey, nat>
    var accessorIndex: map<Accessor, nat>
    var builtinIndex: map<string, nat>
    var constants: seq<Value>
    var accessors: seq<Accessor>
    var builtins: seq<string>

    ghost function State(): PoolSet
      reads this
    {
      PoolSet(Pool(constants, constIndex), Pool(accessors, accessorIndex), Pool(builtins, builtinIndex))
    }

    constructor (fl: FloatOps)
      ensures this.fl == fl && State() == EMPTY_POOLS && ValidSet(State(), fl)
    {
      this.fl := fl;
      constIndex, accessorIndex, builtinIndex := map[], map[], map[];
      constants, accessors, builtins := [], [], [];
    }

    method InternConst(v: Value) returns (idx: nat)
      requires ValidSet(State(), fl)
      modifies this
      ensures State() == InternItem(old(State()), Const(v), fl) && idx == IndexOf(State(), Const(v), fl)
    {
      var key := KeyOf(v, fl);
      if key in constIndex { return constIndex[key]; }
      idx := |constants|;
      constants := constants + [v];
      constIndex := constIndex[key := idx];
    }

    method InternAccessor(a: Accessor) returns (idx: nat)
      requires ValidSet(State(), fl)
      modifies this
      ensures State() == InternItem(old(State()), Factor(a), fl) && idx == IndexOf(State(), Factor(a), fl)
    {
      if a in accessorIndex { return accessorIndex[a]; }
      idx := |accessors|;
      accessors := accessors + [a];
      accessorIndex := accessorIndex[a := idx];
    }

    method InternBuiltin(f: Builtin) returns (idx: nat)
      requires ValidSet(State(), fl)
      modifies this
      ensures State() == InternItem(old(State()), Name(f), fl) && idx == IndexOf(State(), Name(f), fl)
    {
      var name := BuiltinName(f);
      if name in builtinIndex { return builtinIndex[name]; }
      idx := |builtins|;
      builtins := builtins + [name];
      builtinIndex := builtinIndex[name := idx];
    }

    // Fold, emit, clean up. Nothing that is in the pools is lost, and the peephole pass finds nothing to do.
    method Compile(e: Bound) returns (p: Program)
      requires ValidSet(State(), fl)
      modifies this
      ensures ProgramOf(p, Fold(e, fl), old(State()), State(), fl)
    {
      var expr := Fold(e, fl);
      var out := new CodeBuffer();
      EmitExpr(expr, out);
      CodeForward(out.code, expr, 0, State(), fl);
      ForwardUnchanged(out.code);
      var instructions := OptimizeInstructions(out.code);
      p := Program(instructions, constants, accessors, builtins, expr.info.typ);
    }

    // The code grows by exactly the code of the tree, and the pools by exactly what it asks for.
    method EmitExpr(e: Bound, out: CodeBuffer)
      requires ValidSet(State(), fl)
      modifies this, out
      ensures Emitted(old(out.code), old(State()), out.code, State(), e, fl)
      decreases e, 1
    {
      ghost var c0, p0 := out.code, State();
      match e {
        case Literal(v, _) =>
          var i := InternConst(v);
          out.Append(Instruction(PushConst, i, 0));
          AskedOne(p0, Const(v), fl);
        case Ref(a, _) =>
          var i := InternAccessor(a);
          out.Append(Instruction(LoadFactor, i, 0));
          AskedOne(p0, Factor(a), fl);
        case Unary(_, _, _) => EmitUnary(e, out);
        case Binary(Strict(_), _, _, _) => EmitStrictBinary(e, out);
        case Binary(_, _, _, _) => EmitShortCircuitBinary(e, out);
        case Cond(_, _, _, _) => EmitConditional(e, out);
        case Call(_, _, _) => EmitCall(e, out);
        case ListOf(es, _, _) =>
          EmitAll(e, es, out);
          ghost var c1 := out.code;
          out.Append(Instruction(MakeList, |es|, 0));
          CodeStableAll(c1, out.code, es, |c0|, State(), State(), fl);
        case MapOf(es, _, _) =>
          EmitEntries(e, es, out);
          ghost var c1 := out.code;
          out.Append(Instruction(MakeMap, |es|, 0));
          CodeStableEntries(c1, out.code, es, |c0|, State(), State(), fl);
      }
    }

    method EmitUnary(e: Bound, out: CodeBuffer)
      requires ValidSet(State(), fl) && e.Unary?
      modifies this, out
      ensures Emitted(old(out.code), old(State()), out.code, State(), e, fl)
      decreases e, 0
    {
      ghost var c0 := out.code;
      EmitExpr(e.operand, out);
      ghost var c1 := out.code;
      out.Append(Plain(UnaryOp(e.op)));
      StillThere(c1, out.code, e.operand, |c0|, State(), State(), fl);
      assert UnaryAt(out.code, e, |c0|, State(), fl);
    }

    method EmitCall(e: Bound, out: CodeBuffer)
      requires ValidSet(State(), fl) && e.Call?
      modifies this, out
      ensures Emitted(old(out.code), old(State()), out.code, State(), e, fl)
      decreases e, 0, 1
    {
      ghost var c0, p0 := out.code, State();
      EmitAll(e, e.args, out);
      ghost var c1, p1 := out.code, State();
      var i := InternBuiltin(e.fn);
      out.Append(Instruction(CallBuiltin, i, |e.args|));
      AskedOne(p1, Name(e.fn), fl);
      AskedThen(p0, ItemsAll(e.args), p1, [Name(e.fn)], State(), fl);
      CodeStableAll(c1, out.code, e.args, |c0|, p1, State(), fl);
    }

    method EmitStrictBinary(e: Bound, out: CodeBuffer)
      requires ValidSet(State(), fl) && e.Binary? && e.bop.Strict?
      modifies this, out
      ensures Emitted(old(out.code), old(State()), out.code, State(), e, fl)
      decreases e, 0
    {
      ghost var c0, p0 := out.code, State();
      EmitExpr(e.left, out);
      ghost var c1, p1 := out.code, State();
      EmitExpr(e.right, out);
      ghost var c2 := out.code;
      out.Append(Plain(BinaryOp(e.bop.op)));
      StrictEmitted(e, c0, p0, c1, p1, c2, State(), fl);
    }

    method EmitShortCircuitBinary(e: Bound, out: CodeBuffer)
      requires ValidSet(State(), fl) && e.Binary? && !e.bop.Strict?
      modifies this, out
      ensures Emitted(old(out.code), old(State()), out.code, State(), e, fl)
      decreases e, 0
    {
      ghost var c0, p0 := out.code, State();
      EmitExpr(e.left, out);
      ghost var c1, p1 := out.code, State();
      EmitRight(e.bop, e.right, out);
      ShortCircuitEmitted(e, c0, p0, c1, p1, out.code, State(), fl);
    }

    // The jump on the left operand, the right operand, and the constant that the jump goes to.
    method EmitRight(op: BinOp, right: Bound, out: CodeBuffer)
      requires ValidSet(State(), fl) && !op.Strict?
      modifies this, out
      ensures RightEmitted(old(out.code), old(State()), out.code, State(), op, right, fl)
      decreases right, 3
    {
      ghost var c1, p1 := out.code, State();
      var jumpEndIdx := EmitGuarded(Branch(op, 0), right, out);
      ghost var c2, p2 := out.code, State();
      var i := InternConst(Bool(op.Or?));
      RightIsEmitted(op, right, c1, p1, c2, p2, State(), fl);
      out.Append(Instruction(PushConst, i, 0));
      out.Patch(jumpEndIdx, |out.code|);
    }

    method EmitConditional(e: Bound, out: CodeBuffer)
      requires ValidSet(State(), fl) && e.Cond?
      modifies this, out
      ensures Emitted(old(out.code), old(State()), out.code, State(), e, fl)
      decreases e, 0, 1
    {
      ghost var c0, p0 := out.code, State();
      EmitExpr(e.cond, out);
      ghost var c1, p1 := out.code, State();
      EmitArms(e, out);
      CondEmitted(e, c0, p0, c1, p1, out.code, State(), fl);
    }

    // The jump on the condition and the two arms, with the jump over the second behind the first.
    method EmitArms(e: Bound, out: CodeBuffer)
      requires ValidSet(State(), fl) && e.Cond?
      modifies this, out
      ensures ArmsEmitted(old(out.code), old(State()), out.code, State(), e, fl)
      decreases e, 0, 0
    {
      ghost var c1, p1 := out.code, State();
      var jumpEndIdx := EmitGuarded(Plain(JumpIfFalse), e.thn, out);
      ghost var c2, p2 := out.code, State();
      EmitExpr(e.els, out);
      ArmsAreEmitted(e, c1, p1, c2, p2, out.code, State(), fl);
      out.Patch(jumpEndIdx, |out.code|);
    }

    // The jump on a condition, to behind the jump that ends the code it guards.
    method EmitGuarded(branch: Instruction, body: Bound, out: CodeBuffer) returns (jumpEndIdx: nat)
      requires ValidSet(State(), fl)
      modifies this, out
      ensures jumpEndIdx + 1 == |out.code|
      ensures GuardedEmitted(old(out.code), old(State()), out.code, State(), branch, body, fl)
      decreases body, 2
    {
      ghost var c1, p1 := out.code, State();
      var branchIdx := |out.code|;
      out.Append(branch);
      EmitExpr(body, out);
      ghost var c2 := out.code;
      jumpEndIdx := |out.code|;
      out.Append(Plain(Jump));
      GuardedIsEmitted(branch, body, c1, p1, c2, State(), fl);
      out.Patch(branchIdx, |out.code|);
    }

    // The elements of a list or the arguments of a call, one after another.
    method EmitAll(ghost e: Bound, es: seq<Bound>, out: CodeBuffer)
      requires ValidSet(State(), fl) && forall x | x in es :: x < e
      modifies this, out
      ensures AllEmitted(old(out.code), old(State()), out.code, State(), es, fl)
      decreases e, 0, 0
    {
      ghost var c0, p0 := out.code, State();
      AskedNone(p0, fl);
      for i := 0 to |es|
        invariant AllEmitted(c0, p0, out.code, State(), es[..i], fl)
      {
        ghost var c1, p1 := out.code, State();
        assert es[i] in es;
        EmitExpr(es[i], out);
        ElementEmitted(es[..i], es[i], c0, p0, c1, p1, out.code, State(), fl);
        assert es[..i] + [es[i]] == es[..i + 1];
      }
      assert es[..|es|] == es;
    }

    method EmitEntry(entry: Entry, out: CodeBuffer)
      requires ValidSet(State(), fl)
      modifies this, out
      ensures EntryEmitted(old(out.code), old(State()), out.code, State(), entry, fl)
      decreases entry.value, 2
    {
      ghost var c1, p1 := out.code, State();
      var k := InternConst(Str(entry.key));
      out.Append(Instruction(PushConst, k, 0));
      ghost var p2 := State();
      AskedOne(p1, Const(Str(entry.key)), fl);
      EmitExpr(entry.value, out);
      EntryIsEmitted(entry, c1, p1, p2, out.code, State(), fl);
    }

    method EmitEntries(ghost e: Bound, es: seq<Entry>, out: CodeBuffer)
      requires ValidSet(State(), fl) && forall x | x in es :: x.value < e
      modifies this, out
      ensures EntriesEmitted(old(out.code), old(State()), out.code, State(), es, fl)
      decreases e, 0
    {
      ghost var c0, p0 := out.code, State();
      AskedNone(p0, fl);
      ghost var done: seq<Entry> := [];
      for i := 0 to |es|
        invariant done == es[..i] && EntriesEmitted(c0, p0, out.code, State(), done, fl)
      {
        ghost var c1, p1 := out.code, State();
        assert es[i] in es;
        EmitEntry(es[i], out);
        EntryAdded(done, es[i], c0, p0, c1, p1, out.code, State(), fl);
        done := done + [es[i]];
      }
      assert done == es;
    }
  }

  // p is the program of the (folded) tree e, compiled with pools that were `before`.
  ghost predicate ProgramOf(p: Program, e: Bound, before: PoolSet, after: PoolSet, fl: FloatOps) {
    CodeAt(p.instructions, e, 0, after, fl) && |p.instructions| == Size(e) &&
    Asked(before, after, Items(e), fl) &&
    p.constants == after.consts.items && p.accessors == after.accessors.items && p.builtins == after.builtins.items &&
    p.resultType == e.info.typ
  }

  // The code got `size` instructions longer and is otherwise as it was.
  ghost predicate Grown(before: seq<Instruction>, after: seq<Instruction>, size: nat) {
    |after| == |before| + size && after[..|before|] == before
  }

  // The pools interned the items, in this order, and nothing else.
  ghost predicate Asked(before: PoolSet, after: PoolSet, its: seq<Item>, fl: FloatOps) {
    after == InternAll(before, its, fl) && ValidSet(after, fl) && ExtendsSet(before, after) && Covers(after, its, fl)
  }

  // Emitting a tree took the code from c to c' and the pools from p to p'.
  ghost predicate Emitted(c: seq<Instruction>, p: PoolSet, c': seq<Instruction>, p': PoolSet, e: Bound, fl: FloatOps) {
    Grown(c, c', Size(e)) && CodeAt(c', e, |c|, p', fl) && Asked(p, p', Items(e), fl)
  }

  lemma StrictWhole(e: Bound, base: nat, right: nat, c: seq<Instruction>, p: PoolSet, fl: FloatOps)
    requires e.Binary? && e.bop.Strict? && right == base + Size(e.left)
    requires CodeAt(c, e.left, base, p, fl) && CodeAt(c, e.right, right, p, fl)
    requires Holds(c, right + Size(e.right), Plain(BinaryOp(e.bop.op)))
    ensures CodeAt(c, e, base, p, fl)
  {
    assert StrictAt(c, e, base, p, fl);
  }

  lemma StrictEmitted(e: Bound, c0: seq<Instruction>, p0: PoolSet, c1: seq<Instruction>, p1: PoolSet,
                      c2: seq<Instruction>, p2: PoolSet, fl: FloatOps)
    requires e.Binary? && e.bop.Strict? && ValidSet(p0, fl)
    requires Emitted(c0, p0, c1, p1, e.left, fl) && Emitted(c1, p1, c2, p2, e.right, fl)
    ensures Emitted(c0, p0, c2 + [Plain(BinaryOp(e.bop.op))], p2, e, fl)
  {
    var c := c2 + [Plain(BinaryOp(e.bop.op))];
    AskedThen(p0, Items(e.left), p1, Items(e.right), p2, fl);
    assert Items(e) == Items(e.left) + Items(e.right);
    GrownTwice(c0, c1, c2, Size(e.left), Size(e.right));
    assert c[..|c0|] == c2[..|c0|];
    StillThere(c1, c, e.left, |c0|, p1, p2, fl);
    StillThere(c2, c, e.right, |c1|, p2, p2, fl);
    StrictWhole(e, |c0|, |c1|, c, p2, fl);
  }

  // c has the instructions of c2, but for the patched jump at position j, and more behind them.
  ghost predicate Patched(c2: seq<Instruction>, c: seq<Instruction>, j: nat) {
    |c2| <= |c| && forall i | 0 <= i < |c2| && i != j :: c[i] == c2[i]
  }

  function Retargeted(c: seq<Instruction>, idx: nat, target: nat): seq<Instruction>
    requires idx < |c|
  {
    c[idx := c[idx].(arg := target)]
  }

  lemma AppendedThen(c1: seq<Instruction>, inst: Instruction, c2: seq<Instruction>, size: nat)
    requires Grown(c1 + [inst], c2, size)
    ensures Grown(c1, c2, 1 + size) && c2[|c1|] == inst
  {
    assert c2[..|c1|] == c2[..|c1 + [inst]|][..|c1|] == c1;
    assert c2[|c1|] == c2[..|c1 + [inst]|][|c1|];
  }

  // The frame of jumps and the constant around a right operand of the given size.
  ghost predicate ShortCircuitFrame(op: BinOp, jump: nat, size: nat, c: seq<Instruction>, p: PoolSet, fl: FloatOps) {
    |c| == jump + 1 + size + 2 && c[jump] == Branch(op, |c| - 1) &&
    c[|c| - 2] == Instruction(Jump, |c|, 0) && c[|c| - 1] == Push(Bool(op.Or?), p, fl)
  }

  ghost predicate RightEmitted(c1: seq<Instruction>, p1: PoolSet, c: seq<Instruction>, p: PoolSet,
                               op: BinOp, right: Bound, fl: FloatOps) {
    Grown(c1, c, Size(right) + 3) && ShortCircuitFrame(op, |c1|, Size(right), c, p, fl) &&
    CodeAt(c, right, |c1| + 1, p, fl) && Asked(p1, p, Items(right) + [Const(Bool(op.Or?))], fl)
  }

  // The constant is appended, and the jump in front of it goes behind it.
  function PushedBehind(c2: seq<Instruction>, push: Instruction): seq<Instruction>
    requires c2 != []
  {
    Retargeted(c2 + [push], |c2| - 1, |c2| + 1)
  }

  lemma ShortCircuitPatched(c1: seq<Instruction>, c2: seq<Instruction>, size: nat, push: Instruction)
    requires Grown(c1, c2, size + 2) && c2[|c2| - 1] == Plain(Jump)
    ensures var c := PushedBehind(c2, push);
            Grown(c1, c, size + 3) && Patched(c2, c, |c2| - 1) &&
            c[|c2| - 1] == Instruction(Jump, |c|, 0) && c[|c2|] == push
  {
    var c := PushedBehind(c2, push);
    forall i | 0 <= i < |c1| ensures c[i] == c1[i] { assert c2[..|c1|][i] == c1[i]; }
  }

  lemma RightIsEmitted(op: BinOp, right: Bound, c1: seq<Instruction>, p1: PoolSet,
                       c2: seq<Instruction>, p2: PoolSet, p: PoolSet, fl: FloatOps)
    requires ValidSet(p1, fl) && GuardedEmitted(c1, p1, c2, p2, Branch(op, 0), right, fl)
    requires p == InternItem(p2, Const(Bool(op.Or?)), fl)
    ensures c2 != [] && RightEmitted(c1, p1, PushedBehind(c2, Push(Bool(op.Or?), p, fl)), p, op, right, fl)
  {
    AskedOne(p2, Const(Bool(op.Or?)), fl);
    AskedThen(p1, Items(right), p2, [Const(Bool(op.Or?))], p, fl);
    ShortCircuitPatched(c1, c2, Size(right), Push(Bool(op.Or?), p, fl));
    StillThere(c2, PushedBehind(c2, Push(Bool(op.Or?), p, fl)), right, |c1| + 1, p2, p, fl);
  }

  lemma ShortCircuitWhole(e: Bound, base: nat, mid: nat, c: seq<Instruction>, p: PoolSet, fl: FloatOps)
    requires e.Binary? && !e.bop.Strict? && mid == base + Size(e.left) + 1
    requires CodeAt(c, e.left, base, p, fl) && CodeAt(c, e.right, mid, p, fl)
    requires ShortCircuitFrame(e.bop, mid - 1, Size(e.right), c, p, fl)
    ensures CodeAt(c, e, base, p, fl)
  {
    assert ShortCircuitAt(c, e, base, p, fl);
  }

  lemma ShortCircuitEmitted(e: Bound, c0: seq<Instruction>, p0: PoolSet, c1: seq<Instruction>, p1: PoolSet,
                            c: seq<Instruction>, p: PoolSet, fl: FloatOps)
    requires e.Binary? && !e.bop.Strict? && ValidSet(p0, fl)
    requires Emitted(c0, p0, c1, p1, e.left, fl) && RightEmitted(c1, p1, c, p, e.bop, e.right, fl)
    ensures Emitted(c0, p0, c, p, e, fl)
  {
    AskedThen(p0, Items(e.left), p1, Items(e.right) + [Const(Bool(e.bop.Or?))], p, fl);
    assert Items(e) == Items(e.left) + (Items(e.right) + [Const(Bool(e.bop.Or?))]);
    GrownTwice(c0, c1, c, Size(e.left), Size(e.right) + 3);
    StillThere(c1, c, e.left, |c0|, p1, p, fl);
    ShortCircuitWhole(e, |c0|, |c1| + 1, c, p, fl);
  }

  lemma GrownTwice(c0: seq<Instruction>, c1: seq<Instruction>, c: seq<Instruction>, m: nat, n: nat)
    requires Grown(c0, c1, m) && Grown(c1, c, n)
    ensures Grown(c0, c, m + n) && forall i | 0 <= i < |c1| :: c[i] == c1[i]
  {
    forall i | 0 <= i < |c1| ensures c[i] == c1[i] { assert c[..|c1|][i] == c1[i]; }
    assert c[..|c0|] == c[..|c1|][..|c0|];
  }

  ghost predicate ArmsEmitted(c1: seq<Instruction>, p1: PoolSet, c: seq<Instruction>, p: PoolSet, e: Bound,
                              fl: FloatOps)
    requires e.Cond?
  {
    var els := |c1| + 1 + Size(e.thn) + 1;
    Grown(c1, c, Size(e.thn) + Size(e.els) + 2) &&
    c[|c1|] == Instruction(JumpIfFalse, els, 0) && c[els - 1] == Instruction(Jump, |c|, 0) &&
    CodeAt(c, e.thn, |c1| + 1, p, fl) && CodeAt(c, e.els, els, p, fl) &&
    Asked(p1, p, Items(e.thn) + Items(e.els), fl)
  }

  // Guarded code between its jumps, of which the one behind it is yet to be patched.
  ghost predicate GuardedEmitted(c1: seq<Instruction>, p1: PoolSet, c: seq<Instruction>, p: PoolSet,
                                 branch: Instruction, body: Bound, fl: FloatOps) {
    Grown(c1, c, Size(body) + 2) && c[|c1|] == branch.(arg := |c|) && c[|c| - 1] == Plain(Jump) &&
    CodeAt(c, body, |c1| + 1, p, fl) && Asked(p1, p, Items(body), fl)
  }

  lemma GuardedPatched(c1: seq<Instruction>, c2: seq<Instruction>, size: nat, branch: Instruction)
    requires Grown(c1, c2, 1 + size) && c2[|c1|] == branch
    ensures var c := Retargeted(c2 + [Plain(Jump)], |c1|, |c2| + 1);
            Grown(c1, c, size + 2) && Patched(c2, c, |c1|) && c[|c1|] == branch.(arg := |c|) && c[|c2|] == Plain(Jump)
  {
    var c := Retargeted(c2 + [Plain(Jump)], |c1|, |c2| + 1);
    forall i | 0 <= i < |c1| ensures c[i] == c1[i] { assert c2[..|c1|][i] == c1[i]; }
  }

  lemma GuardedIsEmitted(branch: Instruction, body: Bound, c1: seq<Instruction>, p1: PoolSet,
                         c2: seq<Instruction>, p2: PoolSet, fl: FloatOps)
    requires Emitted(c1 + [branch], p1, c2, p2, body, fl)
    ensures |c1| < |c2|
    ensures GuardedEmitted(c1, p1, Retargeted(c2 + [Plain(Jump)], |c1|, |c2| + 1), p2, branch, body, fl)
  {
    AppendedThen(c1, branch, c2, Size(body));
    GuardedPatched(c1, c2, Size(body), branch);
    StillThere(c2, Retargeted(c2 + [Plain(Jump)], |c1|, |c2| + 1), body, |c1| + 1, p2, p2, fl);
  }

  lemma ArmsPatched(c1: seq<Instruction>, c2: seq<Instruction>, c3: seq<Instruction>, sizeT: nat, sizeF: nat)
    requires Grown(c1, c2, sizeT + 2) && Grown(c2, c3, sizeF) && c2[|c2| - 1] == Plain(Jump)
    ensures var c := Retargeted(c3, |c2| - 1, |c3|);
            Grown(c1, c, sizeT + sizeF + 2) && Patched(c2, c, |c2| - 1) && Patched(c3, c, |c2| - 1) &&
            c[|c2| - 1] == Instruction(Jump, |c3|, 0)
  {
    var c := Retargeted(c3, |c2| - 1, |c3|);
    forall i | 0 <= i < |c2| ensures c3[i] == c2[i] { assert c3[..|c2|][i] == c2[i]; }
    forall i | 0 <= i < |c1| ensures c[i] == c1[i] { assert c2[..|c1|][i] == c1[i]; }
  }

  lemma ArmsAreEmitted(e: Bound, c1: seq<Instruction>, p1: PoolSet, c2: seq<Instruction>, p2: PoolSet,
                       c3: seq<Instruction>, p: PoolSet, fl: FloatOps)
    requires e.Cond? && ValidSet(p1, fl) && GuardedEmitted(c1, p1, c2, p2, Plain(JumpIfFalse), e.thn, fl)
    requires Emitted(c2, p2, c3, p, e.els, fl)
    ensures 0 < |c2| <= |c3| && ArmsEmitted(c1, p1, Retargeted(c3, |c2| - 1, |c3|), p, e, fl)
  {
    AskedThen(p1, Items(e.thn), p2, Items(e.els), p, fl);
    ArmsPatched(c1, c2, c3, Size(e.thn), Size(e.els));
    StillThere(c2, Retargeted(c3, |c2| - 1, |c3|), e.thn, |c1| + 1, p2, p, fl);
    StillThere(c3, Retargeted(c3, |c2| - 1, |c3|), e.els, |c2|, p, p, fl);
  }

  lemma CondWhole(e: Bound, base: nat, thn: nat, els: nat, c: seq<Instruction>, p: PoolSet, fl: FloatOps)
    requires e.Cond? && thn == base + Size(e.cond) + 1 && els == thn + Size(e.thn) + 1
    requires CodeAt(c, e.cond, base, p, fl) && CodeAt(c, e.thn, thn, p, fl) && CodeAt(c, e.els, els, p, fl)
    requires Holds(c, thn - 1, Instruction(JumpIfFalse, els, 0)) &&
             Holds(c, els - 1, Instruction(Jump, els + Size(e.els), 0))
    ensures CodeAt(c, e, base, p, fl)
  {
    assert CondAt(c, e, base, p, fl);
  }

  lemma CondEmitted(e: Bound, c0: seq<Instruction>, p0: PoolSet, c1: seq<Instruction>, p1: PoolSet,
                    c: seq<Instruction>, p: PoolSet, fl: FloatOps)
    requires e.Cond? && ValidSet(p0, fl)
    requires Emitted(c0, p0, c1, p1, e.cond, fl) && ArmsEmitted(c1, p1, c, p, e, fl)
    ensures Emitted(c0, p0, c, p, e, fl)
  {
    AskedThen(p0, Items(e.cond), p1, Items(e.thn) + Items(e.els), p, fl);
    assert Items(e) == Items(e.cond) + (Items(e.thn) + Items(e.els));
    GrownTwice(c0, c1, c, Size(e.cond), Size(e.thn) + Size(e.els) + 2);
    StillThere(c1, c, e.cond, |c0|, p1, p, fl);
    CondWhole(e, |c0|, |c1| + 1, |c1| + 1 + Size(e.thn) + 1, c, p, fl);
  }

  ghost predicate AllEmitted(c: seq<Instruction>, p: PoolSet, c': seq<Instruction>, p': PoolSet, es: seq<Bound>,
                             fl: FloatOps) {
    Grown(c, c', SizeAll(es)) && CodeAllAt(c', es, |c|, p', fl) && Asked(p, p', ItemsAll(es), fl)
  }

  lemma ElementEmitted(init: seq<Bound>, last: Bound, c0: seq<Instruction>, p0: PoolSet, c1: seq<Instruction>,
                       p1: PoolSet, c: seq<Instruction>, p: PoolSet, fl: FloatOps)
    requires ValidSet(p0, fl) && AllEmitted(c0, p0, c1, p1, init, fl) && Emitted(c1, p1, c, p, last, fl)
    ensures AllEmitted(c0, p0, c, p, init + [last], fl)
  {
    AskedThen(p0, ItemsAll(init), p1, Items(last), p, fl);
    assert (init + [last])[..|init + [last]| - 1] == init;
    GrownTwice(c0, c1, c, SizeAll(init), Size(last));
    CodeStableAll(c1, c, init, |c0|, p1, p, fl);
  }

  ghost predicate EntryEmitted(c: seq<Instruction>, p: PoolSet, c': seq<Instruction>, p': PoolSet, entry: Entry,
                               fl: FloatOps) {
    Grown(c, c', 1 + Size(entry.value)) && CodeEntryAt(c', entry, |c|, p', fl) &&
    Asked(p, p', [Const(Str(entry.key))] + Items(entry.value), fl)
  }

  lemma EntryIsEmitted(entry: Entry, c1: seq<Instruction>, p1: PoolSet, p2: PoolSet, c: seq<Instruction>, p: PoolSet,
                       fl: FloatOps)
    requires ValidSet(p1, fl) && Asked(p1, p2, [Const(Str(entry.key))], fl)
    requires Emitted(c1 + [Push(Str(entry.key), p2, fl)], p2, c, p, entry.value, fl)
    ensures EntryEmitted(c1, p1, c, p, entry, fl)
  {
    AskedThen(p1, [Const(Str(entry.key))], p2, Items(entry.value), p, fl);
    IndexStable(p2, p, Const(Str(entry.key)), fl);
    AppendedThen(c1, Push(Str(entry.key), p2, fl), c, Size(entry.value));
  }

  lemma EntryAdded(init: seq<Entry>, last: Entry, c0: seq<Instruction>, p0: PoolSet, c1: seq<Instruction>, p1: PoolSet,
                   c: seq<Instruction>, p: PoolSet, fl: FloatOps)
    requires ValidSet(p0, fl) && EntriesEmitted(c0, p0, c1, p1, init, fl) && EntryEmitted(c1, p1, c, p, last, fl)
    ensures EntriesEmitted(c0, p0, c, p, init + [last], fl)
  {
    EntriesAsked(init, last, p0, p1, p, fl);
    GrownTwice(c0, c1, c, SizeEntries(init), 1 + Size(last.value));
    EntriesCoded(init, last, |c0|, c1, p1, c, p, fl);
  }

  lemma EntriesAsked(init: seq<Entry>, last: Entry, p0: PoolSet, p1: PoolSet, p: PoolSet, fl: FloatOps)
    requires ValidSet(p0, fl) && Asked(p0, p1, ItemsEntries(init), fl)
    requires Asked(p1, p, [Const(Str(last.key))] + Items(last.value), fl)
    ensures Asked(p0, p, ItemsEntries(init + [last]), fl)
    ensures SizeEntries(init + [last]) == SizeEntries(init) + (1 + Size(last.value))
  {
    EntriesExtended(init, last);
    AskedThen(p0, ItemsEntries(init), p1, [Const(Str(last.key))] + Items(last.value), p, fl);
  }

  lemma EntriesCoded(init: seq<Entry>, last: Entry, base: nat, c1: seq<Instruction>, p1: PoolSet,
                     c: seq<Instruction>, p: PoolSet, fl: FloatOps)
    requires CodeEntriesAt(c1, init, base, p1, fl) && Covers(p1, ItemsEntries(init), fl)
    requires |c1| == base + SizeEntries(init) && EntryEmitted(c1, p1, c, p, last, fl)
    ensures CodeEntriesAt(c, init + [last], base, p, fl)
  {
    forall i | 0 <= i < |c1| ensures c[i] == c1[i] { assert c[..|c1|][i] == c1[i]; }
    EntriesStillThere(c1, c, init, base, p1, p, fl);
    EntriesWhole(init, last, base, c, p, fl);
  }

  lemma EntriesStillThere(before: seq<Instruction>, after: seq<Instruction>, es: seq<Entry>, base: nat, p: PoolSet,
                          q: PoolSet, fl: FloatOps)
    requires CodeEntriesAt(before, es, base, p, fl) && Covers(p, ItemsEntries(es), fl) && ExtendsSet(p, q)
    requires base + SizeEntries(es) <= |before| <= |after|
    requires forall i | base <= i < base + SizeEntries(es) :: after[i] == before[i]
    ensures CodeEntriesAt(after, es, base, q, fl)
  {
    CodeStableEntries(before, after, es, base, p, q, fl);
  }

  lemma EntriesExtended(init: seq<Entry>, last: Entry)
    ensures SizeEntries(init + [last]) == SizeEntries(init) + (1 + Size(last.value))
    ensures ItemsEntries(init + [last]) == ItemsEntries(init) + ([Const(Str(last.key))] + Items(last.value))
  {
    assert (init + [last])[..|init + [last]| - 1] == init;
  }

  lemma EntriesWhole(init: seq<Entry>, last: Entry, base: nat, c: seq<Instruction>, p: PoolSet, fl: FloatOps)
    requires CodeEntriesAt(c, init, base, p, fl)
    requires Holds(c, base + SizeEntries(init), Push(Str(last.key), p, fl))
    requires CodeAt(c, last.value, base + SizeEntries(init) + 1, p, fl)
    ensures CodeEntriesAt(c, init + [last], base, p, fl)
  {
    assert (init + [last])[..|init + [last]| - 1] == init;
  }

  ghost predicate EntriesEmitted(c: seq<Instruction>, p: PoolSet, c': seq<Instruction>, p': PoolSet, es: seq<Entry>,
                                 fl: FloatOps) {
    Grown(c, c', SizeEntries(es)) && CodeEntriesAt(c', es, |c|, p', fl) && Asked(p, p', ItemsEntries(es), fl)
  }

  lemma AskedNone(p: PoolSet, fl: FloatOps)
    requires ValidSet(p, fl)
    ensures Asked(p, p, [], fl)
  {
  }

  lemma AskedOne(p: PoolSet, it: Item, fl: FloatOps)
    requires ValidSet(p, fl)
    ensures Asked(p, InternItem(p, it, fl), [it], fl)
  {
    assert InternAll(p, [it], fl) == InternItem(InternAll(p, [], fl), it, fl);
    InternAllGrows(p, [it], fl);
  }

  lemma AskedThen(p: PoolSet, a: seq<Item>, q: PoolSet, b: seq<Item>, r: PoolSet, fl: FloatOps)
    requires ValidSet(p, fl) && Asked(p, q, a, fl) && Asked(q, r, b, fl)
    ensures Asked(p, r, a + b, fl)
  {
    InternAllConcat(p, a, b, fl);
    InternAllGrows(p, a + b, fl);
  }

  // Code emitted earlier is still the code of its tree when only positions outside it have changed.
  lemma StillThere(before: seq<Instruction>, after: seq<Instruction>, e: Bound, base: nat, p: PoolSet, q: PoolSet,
                   fl: FloatOps)
    requires CodeAt(before, e, base, p, fl) && Covers(p, Items(e), fl) && ExtendsSet(p, q)
    requires base + Size(e) <= |before| <= |after|
    requires forall i | base <= i < base + Size(e) :: after[i] == before[i]
    ensures CodeAt(after, e, base, q, fl)
  {
    CodeStable(before, after, e, base, p, q, fl);
  }
}
