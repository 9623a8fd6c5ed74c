// What the machine may do: an instruction sees only its operands, and a run is a sequence of steps within the
// limits.
module MachineLaws {
  import opened Values
  import opened Operators
  import opened Schema
  import opened Bytecode

  // The number of operands an instruction takes from the stack.
  function Takes(inst: Instruction): int {
    match inst.op
    case PushConst | LoadFactor | Jump | UnknownOp(_) => 0
    case MakeList => inst.arg
    case MakeMap => 2 * inst.arg
    case UnaryOp(_) | JumpIfFalse | JumpIfTrue => 1
    case BinaryOp(_) => 2
    case CallBuiltin => inst.aux
  }

  // Whether the pool entry that an instruction names exists.
  predicate Entered(p: Program, inst: Instruction) {
    (inst.op.PushConst? ==> 0 <= inst.arg < |p.constants|) &&
    (inst.op.LoadFactor? ==> 0 <= inst.arg < |p.accessors|) &&
    (inst.op.CallBuiltin? ==> 0 <= inst.arg < |p.builtins|) && !inst.op.UnknownOp?
  }

  // What an instruction makes of its operands, in the order in which they were pushed.
  function Made(p: Program, env: Env, inst: Instruction, s: Stack): Result<Value>
    requires !IsJump(inst.op) && Takes(inst) == |s| && Entered(p, inst)
  {
    match inst.op
    case PushConst => Ok(p.constants[inst.arg])
    case LoadFactor => Ok(Loaded(p.accessors[inst.arg], env.ctx))
    case MakeList => Ok(List(s))
    case MakeMap =>
      var kvs :- PairsToMap(s);
      Ok(Map(kvs))
    case UnaryOp(op) => UnaryValue(op, s[0], env.fl)
    case BinaryOp(op) => BinaryValue(op, s[0], s[1], env.fl)
    case CallBuiltin => NamedBuiltin(p.builtins[inst.arg], s, env.fl)
    case UnknownOp(_) => Err(ExpressionInvalid)
  }

  function Onto(below: Stack, r: Result<Value>): Result<Stack> {
    match r
    case Ok(v) => Ok(below + [v])
    case Err(c) => Err(c)
  }

  // Without its entry or its operands an instruction fails.
  lemma OperandsNeeded(p: Program, env: Env, inst: Instruction, s: Stack)
    requires !IsJump(inst.op) && Takes(inst) >= 0 && (!Entered(p, inst) || Takes(inst) > |s|)
    ensures Operate(p, env, inst, s) == Err(ExpressionInvalid)
  {
  }

  // With them it replaces its operands by one value that depends on nothing below them, or fails.
  lemma OperandsOnly(p: Program, env: Env, inst: Instruction, below: Stack, s: Stack)
    requires !IsJump(inst.op) && Takes(inst) == |s| && Entered(p, inst)
    ensures Operate(p, env, inst, below + s) == Onto(below, Made(p, env, inst, s))
  {
    var whole := below + s;
    assert whole[..|whole| - |s|] == below && whole[|whole| - |s|..] == s;
    match inst.op
    case PushConst => assert whole == below;
    case LoadFactor => assert whole == below;
    case MakeList =>
    case MakeMap => assert inst.arg * 2 == |s|;
    case UnaryOp(_) => TopUnary(p, env, inst, below, s);
    case BinaryOp(_) => TopBinary(p, env, inst, below, s);
    case CallBuiltin =>
    case UnknownOp(_) =>
  }

  lemma TopUnary(p: Program, env: Env, inst: Instruction, below: Stack, s: Stack)
    requires inst.op.UnaryOp? && |s| == 1
    ensures Operate(p, env, inst, below + s) == Onto(below, Made(p, env, inst, s))
  {
    var whole := below + s;
    assert whole[|whole| - 1] == s[0] && whole[..|whole| - 1] == below;
  }

  lemma TopBinary(p: Program, env: Env, inst: Instruction, below: Stack, s: Stack)
    requires inst.op.BinaryOp? && |s| == 2
    ensures Operate(p, env, inst, below + s) == Onto(below, Made(p, env, inst, s))
  {
    var whole := below + s;
    assert whole[|whole| - 1] == s[1] && whole[|whole| - 2] == s[0] && whole[..|whole| - 2] == below;
  }

  // The states of a run: where it is and what is on the stack.
  datatype State = State(ip: nat, stack: Stack)

  // Each state follows from the one before, within the limits.
  ghost predicate Steps(p: Program, env: Env, lim: Limits, states: seq<State>) {
    states != [] &&
    forall i | 0 <= i < |states| - 1 :: Follows(p, env, lim, states[i], states[i + 1])
  }

  predicate Follows(p: Program, env: Env, lim: Limits, a: State, b: State) {
    a.ip < |p.instructions| && |a.stack| <= lim.maxDepth && |b.stack| <= lim.maxDepth &&
    Step(p, env, lim, a.ip, a.stack) == Next(b.ip, b.stack)
  }

  // The run ends behind the last instruction, with one value, after no more steps than allowed.
  ghost predicate Arrives(p: Program, lim: Limits, n: nat, states: seq<State>, v: Value)
    requires states != []
  {
    states[|states| - 1].ip >= |p.instructions| && states[|states| - 1].stack == [v] && n + |states| - 1 <= Allowed(lim)
  }

  lemma {:induction false} RunExact(p: Program, env: Env, lim: Limits, ip: nat, s: Stack, n: nat, v: Value)
    requires n <= Allowed(lim) && |s| <= lim.maxDepth
    ensures Run(p, env, lim, ip, s, n) == Ok(v) <==>
            exists states :: Steps(p, env, lim, states) && states[0] == State(ip, s) && Arrives(p, lim, n, states, v)
    decreases lim.maxSteps - n
  {
    if Run(p, env, lim, ip, s, n) == Ok(v) { RunSteps(p, env, lim, ip, s, n, v); }
    forall states | Steps(p, env, lim, states) && states[0] == State(ip, s) && Arrives(p, lim, n, states, v)
      ensures Run(p, env, lim, ip, s, n) == Ok(v)
    {
      StepsRun(p, env, lim, states, n, v);
    }
  }

  lemma {:induction false} RunSteps(p: Program, env: Env, lim: Limits, ip: nat, s: Stack, n: nat, v: Value)
    requires Run(p, env, lim, ip, s, n) == Ok(v) && n <= Allowed(lim) && |s| <= lim.maxDepth
    ensures exists states :: Steps(p, env, lim, states) && states[0] == State(ip, s) && Arrives(p, lim, n, states, v)
    decreases lim.maxSteps - n
  {
    if ip >= |p.instructions| {
      assert Steps(p, env, lim, [State(ip, s)]) && Arrives(p, lim, n, [State(ip, s)], v);
    } else {
      var next := Step(p, env, lim, ip, s);
      StepShallow(p, env, lim, ip, s);
      RunSteps(p, env, lim, next.ip, next.stack, n + 1, v);
      var rest :| Steps(p, env, lim, rest) && rest[0] == State(next.ip, next.stack) && Arrives(p, lim, n + 1, rest, v);
      StepsPushed(p, env, lim, State(ip, s), rest);
      var states := [State(ip, s)] + rest;
      assert states[|states| - 1] == rest[|rest| - 1];
    }
  }

  lemma StepShallow(p: Program, env: Env, lim: Limits, ip: nat, s: Stack)
    requires ip < |p.instructions| && |s| <= lim.maxDepth
    ensures Step(p, env, lim, ip, s).Next? ==> |Step(p, env, lim, ip, s).stack| <= lim.maxDepth
  {
  }

  lemma StepsPushed(p: Program, env: Env, lim: Limits, a: State, rest: seq<State>)
    requires Steps(p, env, lim, rest) && Follows(p, env, lim, a, rest[0])
    ensures Steps(p, env, lim, [a] + rest)
  {
    var states := [a] + rest;
    forall i | 0 <= i < |states| - 1 ensures Follows(p, env, lim, states[i], states[i + 1]) {
      if i > 0 { assert states[i] == rest[i - 1] && states[i + 1] == rest[i - 1 + 1]; }
    }
  }

  lemma {:induction false} StepsRun(p: Program, env: Env, lim: Limits, states: seq<State>, n: nat, v: Value)
    requires Steps(p, env, lim, states) && Arrives(p, lim, n, states, v)
    ensures Run(p, env, lim, states[0].ip, states[0].stack, n) == Ok(v)
    decreases |states|
  {
    if |states| > 1 {
      var rest := states[1..];
      assert Follows(p, env, lim, states[0], states[0 + 1]);
      forall i | 0 <= i < |rest| - 1 ensures Follows(p, env, lim, rest[i], rest[i + 1]) {
        assert rest[i] == states[i + 1] && rest[i + 1] == states[i + 1 + 1];
      }
      assert rest[|rest| - 1] == states[|states| - 1];
      StepsRun(p, env, lim, rest, n + 1, v);
    }
  }

  // A program yields a value exactly if some sequence of steps within the limits leads there.
  lemma ExecutionExact(p: Program, env: Env, lim: Limits, v: Value)
    ensures Execute(p, env, lim) == Ok(v) <==>
            exists states :: Steps(p, env, lim, states) && states[0] == State(0, []) && Arrives(p, lim, 0, states, v)
  {
    RunExact(p, env, lim, 0, [], 0, v);
  }
}
