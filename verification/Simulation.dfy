// Running generated code does what evaluating the tree does.
module Simulation {
  import opened Values
  import opened Operators
  import opened Schema
  import opened Bound
  import opened Bytecode
  import opened Pools
  import opened Codegen

  // A program being run, with the pool indices its code was generated against. The function fields
  // stand for Run with the program, context and limits filled in, for the meaning of trees, and for
  // where their code is; IsMachine ties them to the definitions. Having them as fields keeps the
  // definitions out of the way of the proofs that do not need them.
  datatype Machine = Machine(
    p: Program, env: Env, lim: Limits, ix: PoolSet,
    run: (nat, Stack, nat) -> Result<Value>,
    mean: Bound -> Result<Value>,
    means: seq<Bound> -> Result<seq<Value>>,
    meanEntries: seq<Entry> -> Result<map<string, Value>>,
    coded: (Bound, nat) -> bool,
    codedAll: (seq<Bound>, nat) -> bool,
    codedEntries: (seq<Entry>, nat) -> bool)
  {
    function Img(): Image { Image(p, ix, env.fl) }
  }

  // A program and the indices its code refers to.
  datatype Image = Image(p: Program, ix: PoolSet, fl: FloatOps)

  ghost predicate Coded(g: Image, e: Bound, base: nat) {
    CodeAt(g.p.instructions, e, base, g.ix, g.fl) && ResolvesAll(g, Items(e))
  }

  ghost predicate CodedAll(g: Image, es: seq<Bound>, base: nat) {
    CodeAllAt(g.p.instructions, es, base, g.ix, g.fl) && ResolvesAll(g, ItemsAll(es))
  }

  ghost predicate CodedEntries(g: Image, es: seq<Entry>, base: nat) {
    CodeEntriesAt(g.p.instructions, es, base, g.ix, g.fl) && ResolvesAll(g, ItemsEntries(es))
  }

  ghost predicate IsMachine(m: Machine) {
    (forall ip, s, n {:trigger Run(m.p, m.env, m.lim, ip, s, n)} ::
       m.run(ip, s, n) == Run(m.p, m.env, m.lim, ip, s, n)) &&
    (forall e {:trigger EvalIn(e, m.env, Raw)} :: m.mean(e) == EvalIn(e, m.env, Raw)) &&
    (forall es {:trigger EvalAllIn(es, m.env, Raw)} :: m.means(es) == EvalAllIn(es, m.env, Raw)) &&
    (forall es {:trigger EvalEntriesIn(es, m.env, Raw)} :: m.meanEntries(es) == EvalEntriesIn(es, m.env, Raw)) &&
    (forall e, base {:trigger Coded(m.Img(), e, base)} :: m.coded(e, base) == Coded(m.Img(), e, base)) &&
    (forall es, base {:trigger CodedAll(m.Img(), es, base)} :: m.codedAll(es, base) == CodedAll(m.Img(), es, base)) &&
    (forall es, base {:trigger CodedEntries(m.Img(), es, base)} ::
       m.codedEntries(es, base) == CodedEntries(m.Img(), es, base))
  }

  // Where the parts of the code are, one level deep.
  lemma UnaryParts(m: Machine, e: Bound, base: nat)
    requires IsMachine(m) && m.coded(e, base)
    ensures e.Literal? ==>
              Holds(m.p.instructions, base, Push(e.value, m.ix, m.env.fl)) && Resolves(m.Img(), Const(e.value))
    ensures e.Ref? ==>
            Holds(m.p.instructions, base, Instruction(LoadFactor, IndexOf(m.ix, Factor(e.accessor), m.env.fl), 0)) &&
                       Resolves(m.Img(), Factor(e.accessor))
    ensures e.Unary? ==>
              m.coded(e.operand, base) && Holds(m.p.instructions, base + Size(e.operand), Plain(UnaryOp(e.op)))
    ensures base + Size(e) <= |m.p.instructions|
  {
    var c := Coded(m.Img(), e, base);
    CodeForward(m.p.instructions, e, base, m.ix, m.env.fl);
    if e.Literal? { assert Const(e.value) in Items(e); }
    if e.Ref? { assert Factor(e.accessor) in Items(e); }
    if e.Unary? {
      assert UnaryAt(m.p.instructions, e, base, m.ix, m.env.fl);
      var c1 := Coded(m.Img(), e.operand, base);
    }
  }

  lemma BinaryParts(m: Machine, e: Bound, base: nat)
    requires IsMachine(m) && m.coded(e, base) && e.Binary?
    ensures m.coded(e.left, base)
    ensures e.bop.Strict? ==> m.coded(e.right, base + Size(e.left)) &&
                              Holds(m.p.instructions, base + Size(e.left) + Size(e.right), Plain(BinaryOp(e.bop.op)))
    ensures !e.bop.Strict? ==> m.coded(e.right, base + Size(e.left) + 1) && Resolves(m.Img(), Const(Bool(e.bop.Or?))) &&
                               RightFrame(m, e.bop, base + Size(e.left) + 1, Size(e.right))
  {
    var c, c1 := Coded(m.Img(), e, base), Coded(m.Img(), e.left, base);
    if e.bop.Strict? {
      assert StrictAt(m.p.instructions, e, base, m.ix, m.env.fl);
      var c2 := Coded(m.Img(), e.right, base + Size(e.left));
    } else {
      assert ShortCircuitAt(m.p.instructions, e, base, m.ix, m.env.fl);
      assert Const(Bool(e.bop.Or?)) in Items(e);
      var c2 := Coded(m.Img(), e.right, base + Size(e.left) + 1);
    }
  }

  // The jumps and the constant around the code of a right operand.
  ghost predicate RightFrame(m: Machine, op: BinOp, mid: nat, size: nat) {
    mid >= 1 && Holds(m.p.instructions, mid - 1, Branch(op, mid + size + 1)) &&
    Holds(m.p.instructions, mid + size, Instruction(Jump, mid + size + 2, 0)) &&
    Holds(m.p.instructions, mid + size + 1, Push(Bool(op.Or?), m.ix, m.env.fl))
  }

  lemma CondParts(m: Machine, e: Bound, base: nat)
    requires IsMachine(m) && m.coded(e, base) && e.Cond?
    ensures m.coded(e.cond, base) && m.coded(e.thn, base + Size(e.cond) + 1)
    ensures m.coded(e.els, base + Size(e.cond) + Size(e.thn) + 2)
    ensures ArmFrame(m, base + Size(e.cond) + 1, Size(e.thn), Size(e.els))
  {
    var thn := base + Size(e.cond) + 1;
    var c, c1 := Coded(m.Img(), e, base), Coded(m.Img(), e.cond, base);
    var c2, c3 := Coded(m.Img(), e.thn, thn), Coded(m.Img(), e.els, thn + Size(e.thn) + 1);
    assert CondAt(m.p.instructions, e, base, m.ix, m.env.fl);
    CodeForward(m.p.instructions, e, base, m.ix, m.env.fl);
  }

  // The jumps around the arms of a conditional.
  ghost predicate ArmFrame(m: Machine, thn: nat, sizeT: nat, sizeF: nat) {
    thn >= 1 && thn + sizeT + 1 + sizeF <= |m.p.instructions| &&
    Holds(m.p.instructions, thn - 1, Instruction(JumpIfFalse, thn + sizeT + 1, 0)) &&
    Holds(m.p.instructions, thn + sizeT, Instruction(Jump, thn + sizeT + 1 + sizeF, 0))
  }

  lemma ContainerParts(m: Machine, e: Bound, base: nat)
    requires IsMachine(m) && m.coded(e, base)
    ensures e.Call? ==> m.codedAll(e.args, base) && Resolves(m.Img(), Name(e.fn)) &&
                        Holds(m.p.instructions, base + SizeAll(e.args),
                              Instruction(CallBuiltin, IndexOf(m.ix, Name(e.fn), m.env.fl), |e.args|))
    ensures e.ListOf? ==>
              m.codedAll(e.elems, base) &&
              Holds(m.p.instructions, base + SizeAll(e.elems), Instruction(MakeList, |e.elems|, 0))
    ensures e.MapOf? ==> m.codedEntries(e.entries, base) &&
                         Holds(m.p.instructions, base + SizeEntries(e.entries), Instruction(MakeMap, |e.entries|, 0))
  {
    var c := Coded(m.Img(), e, base);
    match e
    case Call(_, args, _) =>
      assert Name(e.fn) in Items(e);
      var c1 := CodedAll(m.Img(), args, base);
    case ListOf(es, _, _) => var c1 := CodedAll(m.Img(), es, base);
    case MapOf(es, _, _) => var c1 := CodedEntries(m.Img(), es, base);
    case _ =>
  }

  lemma AllParts(m: Machine, es: seq<Bound>, base: nat)
    requires IsMachine(m) && m.codedAll(es, base) && es != []
    ensures m.codedAll(es[..|es| - 1], base) && m.coded(es[|es| - 1], base + SizeAll(es[..|es| - 1]))
  {
    var c, c1 := CodedAll(m.Img(), es, base), CodedAll(m.Img(), es[..|es| - 1], base);
    var c2 := Coded(m.Img(), es[|es| - 1], base + SizeAll(es[..|es| - 1]));
  }

  lemma EntriesParts(m: Machine, es: seq<Entry>, base: nat)
    requires IsMachine(m) && m.codedEntries(es, base) && es != []
    ensures m.codedEntries(es[..|es| - 1], base)
    ensures EntryCoded(m, es[|es| - 1], base + SizeEntries(es[..|es| - 1]))
  {
    var last, at := es[|es| - 1], base + SizeEntries(es[..|es| - 1]);
    var c, c1 := CodedEntries(m.Img(), es, base), CodedEntries(m.Img(), es[..|es| - 1], base);
    var c2 := Coded(m.Img(), last.value, at + 1);
    assert CodeEntryAt(m.p.instructions, last, at, m.ix, m.env.fl);
    assert Const(Str(last.key)) in ItemsEntries(es);
  }

  ghost predicate EntryCoded(m: Machine, entry: Entry, at: nat) {
    Holds(m.p.instructions, at, Push(Str(entry.key), m.ix, m.env.fl)) && Resolves(m.Img(), Const(Str(entry.key))) &&
    m.coded(entry.value, at + 1)
  }

  // The definition of the meaning, one level deep.
  lemma MeanOf(m: Machine, e: Bound)
    requires IsMachine(m)
    ensures e.Literal? ==> m.mean(e) == Ok(e.value)
    ensures e.Ref? ==> m.mean(e) == Ok(Loaded(e.accessor, m.env.ctx))
    ensures e.Unary? ==> m.mean(e) == UnaryMeaning(m, e.op, m.mean(e.operand))
    ensures e.Binary? ==> m.mean(e) == BinaryMeaning(m, e.bop, m.mean(e.left), e.right)
    ensures e.Cond? ==> m.mean(e) == CondMeaning(m, m.mean(e.cond), e.thn, e.els)
    ensures e.Call? ==>
            m.mean(e) ==
            (var r := m.means(e.args); if r.Err? then Err(r.code) else BuiltinValue(e.fn, r.value, m.env.fl))
    ensures e.ListOf? ==> m.mean(e) == (var r := m.means(e.elems); if r.Err? then Err(r.code) else Ok(List(r.value)))
    ensures e.MapOf? ==>
            m.mean(e) == (var r := m.meanEntries(e.entries); if r.Err? then Err(r.code) else Ok(Map(r.value)))
  {
    var r := EvalIn(e, m.env, Raw);
    match e
    case Literal(_, _) =>
    case Ref(_, _) =>
    case Unary(_, x, _) => var rx := EvalIn(x, m.env, Raw);
    case Binary(_, x, y, _) => var rx, ry := EvalIn(x, m.env, Raw), EvalIn(y, m.env, Raw);
    case Cond(c, t, f, _) => var rc, rt, rf := EvalIn(c, m.env, Raw), EvalIn(t, m.env, Raw), EvalIn(f, m.env, Raw);
    case Call(_, args, _) => var rs := EvalAllIn(args, m.env, Raw);
    case ListOf(es, _, _) => var rs := EvalAllIn(es, m.env, Raw);
    case MapOf(es, _, _) => var rs := EvalEntriesIn(es, m.env, Raw);
  }

  function UnaryMeaning(m: Machine, op: UnOp, r: Result<Value>): Result<Value> {
    if r.Err? then r else UnaryValue(op, r.value, m.env.fl)
  }

  function StrictMeaning(m: Machine, op: StrictOp, rl: Result<Value>, rr: Result<Value>): Result<Value> {
    if rl.Err? then rl else if rr.Err? then rr else BinaryValue(op, rl.value, rr.value, m.env.fl)
  }

  function BinaryMeaning(m: Machine, op: BinOp, rl: Result<Value>, right: Bound): Result<Value> {
    if op.Strict? then StrictMeaning(m, op.op, rl, m.mean(right))
    else if rl.Err? then rl else RightMeaning(m, op, rl.value, right)
  }

  function RightMeaning(m: Machine, op: BinOp, v: Value, right: Bound): Result<Value> {
    if Truthy(v) == op.Or? then Ok(Bool(op.Or?)) else m.mean(right)
  }

  function CondMeaning(m: Machine, rc: Result<Value>, t: Bound, f: Bound): Result<Value> {
    if rc.Err? then rc else ArmMeaning(m, rc.value, t, f)
  }

  function ArmMeaning(m: Machine, v: Value, t: Bound, f: Bound): Result<Value> {
    if Truthy(v) then m.mean(t) else m.mean(f)
  }

  lemma MeansOf(m: Machine, es: seq<Bound>)
    requires IsMachine(m)
    ensures es == [] ==> m.means(es) == Ok([])
    ensures es != [] ==> m.means(es) == AppendMeaning(m.means(es[..|es| - 1]), m.mean(es[|es| - 1]))
    ensures m.means(es).Ok? ==> |m.means(es).value| == |es|
  {
    var r := EvalAllIn(es, m.env, Raw);
    if es != [] {
      var ri, rl := EvalAllIn(es[..|es| - 1], m.env, Raw), EvalIn(es[|es| - 1], m.env, Raw);
    }
  }

  function AppendMeaning(ri: Result<seq<Value>>, r: Result<Value>): Result<seq<Value>> {
    if ri.Err? then ri else if r.Err? then Err(r.code) else Ok(ri.value + [r.value])
  }

  lemma MeanEntriesOf(m: Machine, es: seq<Entry>)
    requires IsMachine(m)
    ensures es == [] ==> m.meanEntries(es) == Ok(map[])
    ensures es != [] ==>
      var last := es[|es| - 1];
      m.meanEntries(es) == PutMeaning(m.meanEntries(es[..|es| - 1]), last.key, m.mean(last.value))
  {
    var r := EvalEntriesIn(es, m.env, Raw);
    if es != [] {
      var ri, rl := EvalEntriesIn(es[..|es| - 1], m.env, Raw), EvalIn(es[|es| - 1].value, m.env, Raw);
    }
  }

  function PutMeaning(ri: Result<map<string, Value>>, key: string, r: Result<Value>): Result<map<string, Value>> {
    if ri.Err? then ri else if r.Err? then Err(r.code) else Ok(ri.value[key := r.value])
  }

  // The program's pools give back the items of the tree at their indices.
  ghost predicate Resolves(g: Image, it: Item) {
    Has(g.ix, it, g.fl) &&
    var i := IndexOf(g.ix, it, g.fl);
    match it
    case Const(v) => i < |g.p.constants| && g.p.constants[i] == v
    case Factor(a) => i < |g.p.accessors| && g.p.accessors[i] == a
    case Name(f) => i < |g.p.builtins| && g.p.builtins[i] == BuiltinName(f)
  }

  ghost predicate ResolvesAll(g: Image, its: seq<Item>) {
    forall it | it in its :: Resolves(g, it)
  }

  predicate Interrupted(r: Result<Value>) {
    r.Err? && (r.code.ExecutionCancelled? || r.code.StepBudget? || r.code.StackBudget?)
  }

  // A run and what it should amount to: the same, or the budget ran out where it could.
  ghost predicate Agree(r: Result<Value>, expected: Result<Value>, fits: bool) {
    r == expected || (!fits && Interrupted(r))
  }

  // Enough steps and stack are left for code of this size and depth.
  predicate Fits(m: Machine, size: nat, depth: nat, s: Stack, n: nat) {
    n + size <= Allowed(m.lim) && |s| + depth <= m.lim.maxDepth
  }

  // One instruction that goes to `ip'` with stack `s'` if that stack is not too deep.
  lemma OneStep(m: Machine, ip: nat, s: Stack, n: nat, ip': nat, s': Stack)
    requires IsMachine(m) && ip < |m.p.instructions|
    requires Step(m.p, m.env, m.lim, ip, s) == Next(ip', s')
          || (Step(m.p, m.env, m.lim, ip, s) == Failed(StackBudget) && |s'| > m.lim.maxDepth)
    ensures Agree(m.run(ip, s, n), m.run(ip', s', n + 1),
                  n < Allowed(m.lim) && |s| <= m.lim.maxDepth && |s'| <= m.lim.maxDepth)
  {
    var now, next := Run(m.p, m.env, m.lim, ip, s, n), Run(m.p, m.env, m.lim, ip', s', n + 1);
  }

  // An instruction that is no jump.
  lemma OneOperation(m: Machine, ip: nat, inst: Instruction, s: Stack, n: nat)
    requires IsMachine(m) && Holds(m.p.instructions, ip, inst) && !IsJump(inst.op)
    ensures match Operate(m.p, m.env, inst, s)
            case Err(c) => Agree(m.run(ip, s, n), Err(c), n < Allowed(m.lim) && |s| <= m.lim.maxDepth)
            case Ok(s') => Agree(m.run(ip, s, n), m.run(ip + 1, s', n + 1),
                                 n < Allowed(m.lim) && |s| <= m.lim.maxDepth && |s'| <= m.lim.maxDepth)
  {
    match Operate(m.p, m.env, inst, s)
    case Err(c) => assert Run(m.p, m.env, m.lim, ip, s, n).Err?;
    case Ok(s') => OneStep(m, ip, s, n, ip + 1, s');
  }

  // A conditional jump pops its operand and goes on at `ip'`.
  lemma OneBranch(m: Machine, ip: nat, inst: Instruction, s: Stack, v: Value, n: nat, ip': nat)
    requires IsMachine(m) && Holds(m.p.instructions, ip, inst) && (inst.op.JumpIfFalse? || inst.op.JumpIfTrue?)
    requires ip' == (if Truthy(v) == inst.op.JumpIfTrue? then inst.arg else ip + 1) <= |m.p.instructions|
    ensures Agree(m.run(ip, s + [v], n), m.run(ip', s, n + 1), n < Allowed(m.lim) && |s| + 1 <= m.lim.maxDepth)
  {
    assert (s + [v])[..|s + [v]| - 1] == s;
    OneStep(m, ip, s + [v], n, ip', s);
  }

  lemma OneJump(m: Machine, ip: nat, target: nat, s: Stack, n: nat)
    requires IsMachine(m) && Holds(m.p.instructions, ip, Instruction(Jump, target, 0)) && target <= |m.p.instructions|
    ensures Agree(m.run(ip, s, n), m.run(target, s, n + 1), n < Allowed(m.lim) && |s| <= m.lim.maxDepth)
  {
    OneStep(m, ip, s, n, target, s);
  }

  lemma OnePush(m: Machine, ip: nat, v: Value, s: Stack, n: nat)
    requires IsMachine(m) && Holds(m.p.instructions, ip, Push(v, m.ix, m.env.fl)) && Resolves(m.Img(), Const(v))
    ensures Agree(m.run(ip, s, n), m.run(ip + 1, s + [v], n + 1), n < Allowed(m.lim) && |s| + 1 <= m.lim.maxDepth)
  {
    OneOperation(m, ip, Push(v, m.ix, m.env.fl), s, n);
  }

  // `size` instructions from `base` that amount to the result `r` in `k` steps.
  ghost predicate Yields(m: Machine, r: Result<Value>, size: nat, depth: nat, base: nat, s: Stack, n: nat, k: nat) {
    k <= size &&
    match r
    case Err(c) => Agree(m.run(base, s, n), Err(c), Fits(m, size, depth, s, n))
    case Ok(v) => Agree(m.run(base, s, n), m.run(base + size, s + [v], n + k), Fits(m, size, depth, s, n))
  }

  // The same, starting with one more value on the stack that the code removes.
  ghost predicate YieldsFrom(m: Machine, r: Result<Value>, size: nat, depth: nat, base: nat, top: Value, s: Stack,
                             n: nat, k: nat) {
    k <= size &&
    match r
    case Err(c) => Agree(m.run(base, s + [top], n), Err(c), Fits(m, size, depth, s, n))
    case Ok(v) => Agree(m.run(base, s + [top], n), m.run(base + size, s + [v], n + k), Fits(m, size, depth, s, n))
  }

  lemma Chain(m: Machine, rl: Result<Value>, sl: nat, dl: nat, r: Result<Value>, size: nat, depth: nat,
              base: nat, s: Stack, n: nat, k: nat, k1: nat)
    requires Yields(m, rl, sl, dl, base, s, n, k)
    requires rl.Ok? ==> YieldsFrom(m, r, size, depth, base + sl, rl.value, s, n + k, k1)
    ensures Yields(m, if rl.Err? then rl else r, sl + size, Max(dl, depth), base, s, n, if rl.Err? then k else k + k1)
  {
  }

  ghost predicate Simulates(m: Machine, e: Bound, base: nat, s: Stack, n: nat, k: nat) {
    Yields(m, m.mean(e), Size(e), Depth(e), base, s, n, k)
  }

  // For every tree, stack and number of steps already taken: its code, wherever it stands, ends
  // right behind itself with the value on top of the untouched stack, or stops with the error.
  lemma {:induction false} Simulate(m: Machine, e: Bound, base: nat, s: Stack, n: nat) returns (k: nat)
    requires IsMachine(m) && m.coded(e, base)
    ensures Simulates(m, e, base, s, n, k)
    decreases e, 1
  {
    UnaryParts(m, e, base);
    MeanOf(m, e);
    match e
    case Literal(v, _) =>
      OnePush(m, base, v, s, n);
      k := 1;
    case Ref(a, _) =>
      OneOperation(m, base, Instruction(LoadFactor, IndexOf(m.ix, Factor(a), m.env.fl), 0), s, n);
      k := 1;
    case Unary(op, x, _) =>
      k := Simulate(m, x, base, s, n);
      k := ThenUnary(m, op, m.mean(x), Size(x), Depth(x), base, s, n, k);
    case Binary(_, _, _, _) => k := SimulateBinary(m, e, base, s, n);
    case Cond(_, _, _, _) =>
      CondParts(m, e, base);
      k := SimulateCond(m, e, base, s, n);
    case Call(_, _, _) => k := SimulateCall(m, e, base, s, n);
    case ListOf(_, _, _) => k := SimulateList(m, e, base, s, n);
    case MapOf(_, _, _) => k := SimulateMap(m, e, base, s, n);
  }

  lemma {:induction false} SimulateBinary(m: Machine, e: Bound, base: nat, s: Stack, n: nat) returns (k: nat)
    requires IsMachine(m) && e.Binary? && m.coded(e, base)
    ensures Simulates(m, e, base, s, n, k)
    decreases e, 0, 1
  {
    BinaryParts(m, e, base);
    MeanOf(m, e);
    if e.bop.Strict? {
      k := SimulateStrict(m, e, base, s, n);
    } else {
      k := SimulateShortCircuit(m, e, base, s, n);
    }
  }

  lemma ThenUnary(m: Machine, op: UnOp, r: Result<Value>, size: nat, depth: nat, base: nat, s: Stack, n: nat, k: nat)
    returns (k': nat)
    requires IsMachine(m) && Holds(m.p.instructions, base + size, Plain(UnaryOp(op)))
    requires depth >= 1 && Yields(m, r, size, depth, base, s, n, k)
    ensures Yields(m, UnaryMeaning(m, op, r), size + 1, depth, base, s, n, k')
  {
    k' := k;
    if r.Ok? {
      var s1 := s + [r.value];
      assert s1[..|s1| - 1] == s;
      OneOperation(m, base + size, Plain(UnaryOp(op)), s1, n + k);
      k' := k + 1;
    }
  }

  lemma OneBinary(m: Machine, ip: nat, op: StrictOp, s: Stack, v: Value, w: Value, n: nat)
    requires IsMachine(m) && Holds(m.p.instructions, ip, Plain(BinaryOp(op)))
    ensures var fits := n < Allowed(m.lim) && |s| + 2 <= m.lim.maxDepth;
            match BinaryValue(op, v, w, m.env.fl)
            case Err(c) => Agree(m.run(ip, s + [v] + [w], n), Err(c), fits)
            case Ok(r) => Agree(m.run(ip, s + [v] + [w], n), m.run(ip + 1, s + [r], n + 1), fits)
  {
    var s2 := s + [v] + [w];
    assert s2[..|s2| - 2] == s && s2[|s2| - 2] == v && s2[|s2| - 1] == w;
    OneOperation(m, ip, Plain(BinaryOp(op)), s2, n);
  }

  lemma {:induction false} SimulateStrict(m: Machine, e: Bound, base: nat, s: Stack, n: nat) returns (k: nat)
    requires IsMachine(m) && e.Binary? && e.bop.Strict? && m.coded(e, base)
    ensures Simulates(m, e, base, s, n, k)
    decreases e, 0, 0
  {
    BinaryParts(m, e, base);
    MeanOf(m, e);
    k := Simulate(m, e.left, base, s, n);
    if m.mean(e.left).Ok? {
      var v := m.mean(e.left).value;
      var k1 := Simulate(m, e.right, base + Size(e.left), s + [v], n + k);
      if m.mean(e.right).Ok? {
        var w := m.mean(e.right).value;
        OneBinary(m, base + Size(e.left) + Size(e.right), e.bop.op, s, v, w, n + k + k1);
        k := k + k1 + 1;
      }
    }
  }

  lemma {:induction false} SimulateShortCircuit(m: Machine, e: Bound, base: nat, s: Stack, n: nat) returns (k: nat)
    requires IsMachine(m) && e.Binary? && !e.bop.Strict? && Resolves(m.Img(), Const(Bool(e.bop.Or?)))
    requires m.coded(e.left, base) && m.coded(e.right, base + Size(e.left) + 1)
    requires RightFrame(m, e.bop, base + Size(e.left) + 1, Size(e.right))
    ensures Yields(m, BinaryMeaning(m, e.bop, m.mean(e.left), e.right),
                   Size(e.left) + (Size(e.right) + 3), Max(Depth(e.left), Depth(e.right)), base, s, n, k)
    decreases e, 0, 0
  {
    k := Simulate(m, e.left, base, s, n);
    var r := m.mean(e.left);
    if r.Ok? {
      var k1 := SimulateRight(m, e.bop, e.right, base + Size(e.left) + 1, r.value, s, n + k);
      Chain(m, r, Size(e.left), Depth(e.left), RightMeaning(m, e.bop, r.value, e.right), Size(e.right) + 3,
            Depth(e.right), base, s, n, k, k1);
      k := k + k1;
    }
  }

  // The rest of a short circuit, from the jump on the value of the left operand.
  lemma {:induction false} SimulateRight(m: Machine, op: BinOp, e: Bound, mid: nat, v: Value, s: Stack,
                                         n: nat) returns (k: nat)
    requires IsMachine(m) && !op.Strict? && m.coded(e, mid) && Resolves(m.Img(), Const(Bool(op.Or?))) &&
             RightFrame(m, op, mid, Size(e))
    ensures YieldsFrom(m, RightMeaning(m, op, v, e), Size(e) + 3, Depth(e), mid - 1, v, s, n, k)
    decreases e, 3
  {
    var end := mid + Size(e) + 2;
    if Truthy(v) == op.Or? {
      OneBranch(m, mid - 1, Branch(op, end - 1), s, v, n, end - 1);
      OnePush(m, end - 1, Bool(op.Or?), s, n + 1);
      k := 2;
    } else {
      OneBranch(m, mid - 1, Branch(op, end - 1), s, v, n, mid);
      k := SimulateThenJump(m, e, mid, end, s, n + 1);
      k := k + 1;
    }
  }

  // A branch's code followed by the jump over what it skips.
  lemma {:induction false} SimulateThenJump(m: Machine, e: Bound, base: nat, target: nat, s: Stack,
                                            n: nat) returns (k: nat)
    requires IsMachine(m) && m.coded(e, base)
    requires Holds(m.p.instructions, base + Size(e), Instruction(Jump, target, 0)) && target <= |m.p.instructions|
    ensures k <= Size(e) + 1
    ensures var fits := Fits(m, Size(e) + 1, Depth(e), s, n);
            match m.mean(e)
            case Err(c) => Agree(m.run(base, s, n), Err(c), fits)
            case Ok(v) => Agree(m.run(base, s, n), m.run(target, s + [v], n + k), fits)
    decreases e, 2
  {
    k := Simulate(m, e, base, s, n);
    if m.mean(e).Ok? {
      OneJump(m, base + Size(e), target, s + [m.mean(e).value], n + k);
      k := k + 1;
    }
  }

  lemma {:induction false} SimulateCond(m: Machine, e: Bound, base: nat, s: Stack, n: nat) returns (k: nat)
    requires IsMachine(m) && e.Cond? && m.coded(e.cond, base)
    requires m.coded(e.thn, base + Size(e.cond) + 1) && m.coded(e.els, base + Size(e.cond) + Size(e.thn) + 2)
    requires ArmFrame(m, base + Size(e.cond) + 1, Size(e.thn), Size(e.els))
    ensures Yields(m, CondMeaning(m, m.mean(e.cond), e.thn, e.els),
                   Size(e.cond) + (Size(e.thn) + Size(e.els) + 2), Max(Depth(e.cond), Max(Depth(e.thn), Depth(e.els))),
                   base, s, n, k)
    decreases e, 0
  {
    k := Simulate(m, e.cond, base, s, n);
    var r := m.mean(e.cond);
    if r.Ok? {
      var k1 := SimulateArms(m, e.thn, e.els, base + Size(e.cond) + 1, r.value, s, n + k);
      Chain(m, r, Size(e.cond), Depth(e.cond), ArmMeaning(m, r.value, e.thn, e.els), Size(e.thn) + Size(e.els) + 2,
            Max(Depth(e.thn), Depth(e.els)), base, s, n, k, k1);
      k := k + k1;
    }
  }

  // The two arms of a conditional, from the jump on the value of the condition.
  lemma {:induction false} SimulateArms(m: Machine, t: Bound, f: Bound, thn: nat, v: Value, s: Stack,
                                        n: nat) returns (k: nat)
    requires IsMachine(m) && m.coded(t, thn) && m.coded(f, thn + Size(t) + 1) && ArmFrame(m, thn, Size(t), Size(f))
    ensures YieldsFrom(m, ArmMeaning(m, v, t, f), Size(t) + Size(f) + 2, Max(Depth(t), Depth(f)), thn - 1, v, s, n, k)
    decreases if Truthy(v) then t else f, 4
  {
    var els := thn + Size(t) + 1;
    if Truthy(v) {
      k := SimulateThen(m, t, els + Size(f), Size(f), thn, v, s, n);
    } else {
      k := SimulateElse(m, f, Size(t), thn, v, s, n);
    }
  }

  lemma {:induction false} SimulateThen(m: Machine, t: Bound, end: nat, sizeF: nat, thn: nat, v: Value, s: Stack,
                                        n: nat)
    returns (k: nat)
    requires IsMachine(m) && Truthy(v) && m.coded(t, thn) && ArmFrame(m, thn, Size(t), sizeF)
    requires end == thn + Size(t) + 1 + sizeF <= |m.p.instructions|
    ensures YieldsFrom(m, m.mean(t), Size(t) + sizeF + 2, Depth(t), thn - 1, v, s, n, k)
    decreases t, 3
  {
    OneBranch(m, thn - 1, Instruction(JumpIfFalse, thn + Size(t) + 1, 0), s, v, n, thn);
    k := SimulateThenJump(m, t, thn, end, s, n + 1);
    k := k + 1;
  }

  lemma {:induction false} SimulateElse(m: Machine, f: Bound, sizeT: nat, thn: nat, v: Value, s: Stack, n: nat)
    returns (k: nat)
    requires IsMachine(m) && !Truthy(v) && m.coded(f, thn + sizeT + 1) && ArmFrame(m, thn, sizeT, Size(f))
    ensures YieldsFrom(m, m.mean(f), sizeT + Size(f) + 2, Depth(f), thn - 1, v, s, n, k)
    decreases f, 3
  {
    var els := thn + sizeT + 1;
    OneBranch(m, thn - 1, Instruction(JumpIfFalse, els, 0), s, v, n, els);
    k := Simulate(m, f, els, s, n + 1);
    k := k + 1;
  }

  lemma OneCall(m: Machine, ip: nat, fn: Builtin, s: Stack, vs: seq<Value>, n: nat)
    requires IsMachine(m) && Resolves(m.Img(), Name(fn))
    requires Holds(m.p.instructions, ip, Instruction(CallBuiltin, IndexOf(m.ix, Name(fn), m.env.fl), |vs|))
    ensures match BuiltinValue(fn, vs, m.env.fl)
            case Err(c) => Agree(m.run(ip, s + vs, n), Err(c), n < Allowed(m.lim) && |s| + |vs| <= m.lim.maxDepth)
            case Ok(v) => Agree(m.run(ip, s + vs, n), m.run(ip + 1, s + [v], n + 1),
                                n < Allowed(m.lim) && |s| + Max(1, |vs|) <= m.lim.maxDepth)
  {
    var s1 := s + vs;
    assert s1[..|s1| - |vs|] == s && s1[|s1| - |vs|..] == vs;
    OneOperation(m, ip, Instruction(CallBuiltin, IndexOf(m.ix, Name(fn), m.env.fl), |vs|), s1, n);
  }

  lemma {:induction false} SimulateCall(m: Machine, e: Bound, base: nat, s: Stack, n: nat) returns (k: nat)
    requires IsMachine(m) && e.Call? && m.coded(e, base)
    ensures Simulates(m, e, base, s, n, k)
    decreases e, 0
  {
    ContainerParts(m, e, base);
    MeanOf(m, e);
    MeansOf(m, e.args);
    k := SimulateAll(m, e.args, base, s, n);
    if m.means(e.args).Ok? {
      OneCall(m, base + SizeAll(e.args), e.fn, s, m.means(e.args).value, n + k);
      k := k + 1;
    }
  }

  lemma {:induction false} SimulateList(m: Machine, e: Bound, base: nat, s: Stack, n: nat) returns (k: nat)
    requires IsMachine(m) && e.ListOf? && m.coded(e, base)
    ensures Simulates(m, e, base, s, n, k)
    decreases e, 0
  {
    ContainerParts(m, e, base);
    MeanOf(m, e);
    MeansOf(m, e.elems);
    k := SimulateAll(m, e.elems, base, s, n);
    if m.means(e.elems).Ok? {
      var s1 := s + m.means(e.elems).value;
      assert s1[..|s1| - |e.elems|] == s && s1[|s1| - |e.elems|..] == m.means(e.elems).value;
      OneOperation(m, base + SizeAll(e.elems), Instruction(MakeList, |e.elems|, 0), s1, n + k);
      k := k + 1;
    }
  }

  lemma OneMakeMap(m: Machine, ip: nat, count: nat, s: Stack, pairs: seq<Value>, n: nat)
    requires IsMachine(m) && Holds(m.p.instructions, ip, Instruction(MakeMap, count, 0))
    requires |pairs| == 2 * count && PairsToMap(pairs).Ok?
    ensures Agree(m.run(ip, s + pairs, n), m.run(ip + 1, s + [Map(PairsToMap(pairs).value)], n + 1),
                  n < Allowed(m.lim) && |s| + Max(1, |pairs|) <= m.lim.maxDepth)
  {
    var s1 := s + pairs;
    assert s1[..|s1| - count * 2] == s && s1[|s1| - count * 2..] == pairs;
    OneOperation(m, ip, Instruction(MakeMap, count, 0), s1, n);
  }

  lemma {:induction false} SimulateMap(m: Machine, e: Bound, base: nat, s: Stack, n: nat) returns (k: nat)
    requires IsMachine(m) && e.MapOf? && m.coded(e, base)
    ensures Simulates(m, e, base, s, n, k)
    decreases e, 0
  {
    ContainerParts(m, e, base);
    MeanOf(m, e);
    var pairs: seq<Value>;
    k, pairs := SimulateEntries(m, e.entries, base, s, n);
    if m.meanEntries(e.entries).Ok? {
      OneMakeMap(m, base + SizeEntries(e.entries), |e.entries|, s, pairs, n + k);
      k := k + 1;
    }
  }

  // Arguments and elements: their values end up on the stack in order.
  ghost predicate YieldsAll(m: Machine, r: Result<seq<Value>>, size: nat, depth: nat, base: nat, s: Stack, n: nat,
                            k: nat) {
    k <= size &&
    match r
    case Err(c) => Agree(m.run(base, s, n), Err(c), Fits(m, size, depth, s, n))
    case Ok(vs) => Agree(m.run(base, s, n), m.run(base + size, s + vs, n + k), Fits(m, size, depth, s, n))
  }

  lemma ChainAll(m: Machine, ri: Result<seq<Value>>, si: nat, di: nat, r: Result<Value>, size: nat, depth: nat,
                 base: nat, s: Stack, n: nat, k: nat, k1: nat)
    requires YieldsAll(m, ri, si, di, base, s, n, k)
    requires ri.Ok? ==> Yields(m, r, size, depth, base + si, s + ri.value, n + k, k1)
    ensures YieldsAll(m, AppendMeaning(ri, r),
                      si + size, if ri.Ok? then Max(di, |ri.value| + depth) else di, base, s, n,
                      if ri.Err? then k else k + k1)
  {
    if ri.Ok? && r.Ok? {
      assert s + ri.value + [r.value] == s + (ri.value + [r.value]);
    }
  }

  lemma {:induction false} SimulateAll(m: Machine, es: seq<Bound>, base: nat, s: Stack, n: nat) returns (k: nat)
    requires IsMachine(m) && m.codedAll(es, base)
    ensures YieldsAll(m, m.means(es), SizeAll(es), DepthAll(es), base, s, n, k)
    decreases es, 1
  {
    MeansOf(m, es);
    k := 0;
    if es == [] {
      assert s + [] == s;
    } else {
      AllParts(m, es, base);
      k := SimulateAll(m, es[..|es| - 1], base, s, n);
      k := SimulateLast(m, es, base, s, n, k);
    }
  }

  lemma {:induction false} SimulateLast(m: Machine, es: seq<Bound>, base: nat, s: Stack, n: nat,
                                        k0: nat) returns (k: nat)
    requires IsMachine(m) && es != [] && m.codedAll(es, base)
    requires var init := es[..|es| - 1]; YieldsAll(m, m.means(init), SizeAll(init), DepthAll(init), base, s, n, k0)
    ensures YieldsAll(m, m.means(es), SizeAll(es), DepthAll(es), base, s, n, k)
    decreases es, 0
  {
    var init, last := es[..|es| - 1], es[|es| - 1];
    MeansOf(m, es);
    AllParts(m, es, base);
    MeansOf(m, init);
    var r := m.means(init);
    k := k0;
    if r.Ok? {
      var k1 := Simulate(m, last, base + SizeAll(init), s + r.value, n + k);
      ChainAll(m, r, SizeAll(init), DepthAll(init), m.mean(last), Size(last), Depth(last), base, s, n, k, k1);
      k := k + k1;
    }
  }

  // Map entries: keys and values alternate on the stack and make up the map.
  ghost predicate YieldsPairs(m: Machine, r: Result<map<string, Value>>, count: nat, size: nat, depth: nat,
                              base: nat, s: Stack, n: nat, k: nat, pairs: seq<Value>) {
    k <= size &&
    match r
    case Err(c) => Agree(m.run(base, s, n), Err(c), Fits(m, size, depth, s, n))
    case Ok(kvs) =>
      |pairs| == 2 * count && PairsToMap(pairs) == Ok(kvs) &&
      Agree(m.run(base, s, n), m.run(base + size, s + pairs, n + k), Fits(m, size, depth, s, n))
  }

  lemma ChainPairs(m: Machine, ri: Result<map<string, Value>>, count: nat, si: nat, di: nat, pairs: seq<Value>,
                   key: string, r: Result<Value>, size: nat, depth: nat, base: nat, s: Stack, n: nat, k: nat, k1: nat)
    requires YieldsPairs(m, ri, count, si, di, base, s, n, k, pairs)
    requires ri.Ok? ==> YieldsEntry(m, key, r, size, depth, base + si, s + pairs, n + k, k1)
    ensures YieldsPairs(m, PutMeaning(ri, key, r), count + 1, si + size, Max(di, 2 * count + depth), base, s, n,
                        if ri.Err? then k else k + k1, if r.Ok? then pairs + [Str(key), r.value] else pairs)
  {
    if ri.Ok? && r.Ok? {
      var pair := [Str(key), r.value];
      assert s + pairs + pair == s + (pairs + pair);
      assert (pairs + pair)[..|pairs + pair| - 2] == pairs;
    }
  }

  lemma {:induction false} SimulateEntries(m: Machine, es: seq<Entry>, base: nat, s: Stack, n: nat)
    returns (k: nat, pairs: seq<Value>)
    requires IsMachine(m) && m.codedEntries(es, base)
    ensures YieldsPairs(m, m.meanEntries(es), |es|, SizeEntries(es), DepthEntries(es), base, s, n, k, pairs)
    decreases es, 0
  {
    MeanEntriesOf(m, es);
    k, pairs := 0, [];
    if es == [] {
      assert s + [] == s;
    } else {
      var init, last := es[..|es| - 1], es[|es| - 1];
      EntriesParts(m, es, base);
      k, pairs := SimulateEntries(m, init, base, s, n);
      var r := m.meanEntries(init);
      if r.Ok? {
        var k1 := SimulateEntry(m, last, base + SizeEntries(init), s + pairs, n + k);
        ChainPairs(m, r, |init|, SizeEntries(init), DepthEntries(init), pairs, last.key, m.mean(last.value),
                   1 + Size(last.value), 1 + Depth(last.value), base, s, n, k, k1);
        k := k + k1;
        if m.mean(last.value).Ok? { pairs := pairs + [Str(last.key), m.mean(last.value).value]; }
      }
    }
  }

  ghost predicate YieldsEntry(m: Machine, key: string, r: Result<Value>, size: nat, depth: nat, base: nat, s: Stack,
                              n: nat, k: nat) {
    k <= size &&
    match r
    case Err(c) => Agree(m.run(base, s, n), Err(c), Fits(m, size, depth, s, n))
    case Ok(v) => Agree(m.run(base, s, n), m.run(base + size, s + [Str(key), v], n + k), Fits(m, size, depth, s, n))
  }

  lemma {:induction false} SimulateEntry(m: Machine, entry: Entry, at: nat, s: Stack, n: nat) returns (k: nat)
    requires IsMachine(m) && EntryCoded(m, entry, at)
    ensures YieldsEntry(m, entry.key, m.mean(entry.value), 1 + Size(entry.value), 1 + Depth(entry.value), at, s, n, k)
    decreases entry, 0
  {
    OnePush(m, at, Str(entry.key), s, n);
    k := Simulate(m, entry.value, at + 1, s + [Str(entry.key)], n + 1);
    k := k + 1;
    if m.mean(entry.value).Ok? {
      assert s + [Str(entry.key)] + [m.mean(entry.value).value] == s + [Str(entry.key), m.mean(entry.value).value];
    }
  }
}
