// Instructions, constant pools, programs, and what running a program means.
module Bytecode {
  import opened Values
  import opened Operators
  import opened Schema

  datatype OpCode =
    | PushConst | LoadFactor | MakeList | MakeMap | UnaryOp(uop: UnOp) | BinaryOp(bop: StrictOp)
    | JumpIfFalse | JumpIfTrue | Jump | CallBuiltin | UnknownOp(byte: nat)

  datatype Instruction = Instruction(op: OpCode, arg: int, aux: int)

  datatype Program = Program(
    instructions: seq<Instruction>,
    constants: seq<Value>,
    accessors: seq<Accessor>,
    builtins: seq<string>,
    resultType: ValueType)

  // When the surrounding context is found to be cancelled: never, or once so many instructions have been executed.
  datatype Deadline = Never | AfterSteps(steps: nat)

  // The virtual machine's limits, after the defaults have replaced limits that are not positive.
  datatype Limits = Limits(maxSteps: nat, maxDepth: nat, deadline: Deadline)

  const DEFAULT_MAX_STEPS: nat := 10000
  const DEFAULT_MAX_DEPTH: nat := 1024

  // Without a context nothing cancels.
  function NewLimits(maxSteps: int, maxDepth: int, context: Option<Deadline>): Limits {
    Limits(if maxSteps <= 0 then DEFAULT_MAX_STEPS else maxSteps,
           if maxDepth <= 0 then DEFAULT_MAX_DEPTH else maxDepth,
           if context.None? then Never else context.value)
  }

  predicate Cancelled(lim: Limits, executed: nat) {
    lim.deadline.AfterSteps? && lim.deadline.steps <= executed
  }

  // How many instructions can be executed before the budget or the deadline ends the run.
  function Allowed(lim: Limits): nat {
    if lim.deadline.AfterSteps? && lim.deadline.steps < lim.maxSteps then lim.deadline.steps else lim.maxSteps
  }

  type Stack = seq<Value>

  predicate IsJump(op: OpCode) {
    op.Jump? || op.JumpIfFalse? || op.JumpIfTrue?
  }

  // One instruction on the top of the stack: what it leaves there, or its error.
  function Operate(p: Program, env: Env, inst: Instruction, s: Stack): Result<Stack>
    requires !IsJump(inst.op)
  {
    match inst.op
    case PushConst =>
      if 0 <= inst.arg < |p.constants| then Ok(s + [p.constants[inst.arg]]) else Err(ExpressionInvalid)
    case LoadFactor =>
      if 0 <= inst.arg < |p.accessors| then Ok(s + [Loaded(p.accessors[inst.arg], env.ctx)]) else Err(ExpressionInvalid)
    case MakeList =>
      if |s| < inst.arg then Err(ExpressionInvalid)
      else if inst.arg < 0 then Err(InternalPanic)
      else Ok(s[..|s| - inst.arg] + [List(s[|s| - inst.arg..])])
    case MakeMap =>
      if |s| < inst.arg * 2 then Err(ExpressionInvalid)
      else if inst.arg < 0 then Err(InternalPanic)
      else
        var kvs :- PairsToMap(s[|s| - inst.arg * 2..]);
        Ok(s[..|s| - inst.arg * 2] + [Map(kvs)])
    case UnaryOp(op) =>
      if |s| < 1 then Err(ExpressionInvalid)
      else
        var v :- UnaryValue(op, s[|s| - 1], env.fl);
        Ok(s[..|s| - 1] + [v])
    case BinaryOp(op) =>
      if |s| < 2 then Err(ExpressionInvalid)
      else
        var v :- BinaryValue(op, s[|s| - 2], s[|s| - 1], env.fl);
        Ok(s[..|s| - 2] + [v])
    case CallBuiltin =>
      if !(0 <= inst.arg < |p.builtins|) then Err(ExpressionInvalid)
      else if |s| < inst.aux then Err(ExpressionInvalid)
      else if inst.aux < 0 then Err(InternalPanic)
      else
        var v :- NamedBuiltin(p.builtins[inst.arg], s[|s| - inst.aux..], env.fl);
        Ok(s[..|s| - inst.aux] + [v])
    case UnknownOp(_) => Err(ExpressionInvalid)
  }

  function NamedBuiltin(name: string, args: seq<Value>, fl: FloatOps): Result<Value> {
    match BuiltinNamed(name)
    case None => Err(UnknownFunction)
    case Some(f) => BuiltinValue(f, args, fl)
  }

  // Keys and values alternate; the keys must be strings, and a later key wins.
  function PairsToMap(s: Stack): Result<map<string, Value>> {
    if |s| < 2 then Ok(map[]) else
    var kvs :- PairsToMap(s[..|s| - 2]);
    if s[|s| - 2].Str? then Ok(kvs[s[|s| - 2].s := s[|s| - 1]]) else Err(TypeMismatch)
  }

  datatype Jumped = NoJump | JumpTo(target: nat) | BadJump(code: ErrorCode)

  // Whether a jump instruction on a stack is taken. A taken jump needs a target within the program.
  function JumpOutcome(p: Program, inst: Instruction, s: Stack): Jumped
    requires IsJump(inst.op)
  {
    if !inst.op.Jump? && |s| < 1 then BadJump(ExpressionInvalid)
    else if inst.op.JumpIfFalse? && Truthy(s[|s| - 1]) then NoJump
    else if inst.op.JumpIfTrue? && !Truthy(s[|s| - 1]) then NoJump
    else if 0 <= inst.arg <= |p.instructions| then JumpTo(inst.arg)
    else BadJump(ExpressionInvalid)
  }

  function AfterJump(inst: Instruction, s: Stack): Stack
    requires IsJump(inst.op)
  {
    if inst.op.Jump? || |s| < 1 then s else s[..|s| - 1]
  }

  datatype Stepped = Next(ip: nat, stack: Stack) | Failed(code: ErrorCode)

  // One instruction, including the depth check that follows every instruction but a taken jump.
  function Step(p: Program, env: Env, lim: Limits, ip: nat, s: Stack): Stepped
    requires ip < |p.instructions|
  {
    var inst := p.instructions[ip];
    if IsJump(inst.op) then
      match JumpOutcome(p, inst, s)
      case BadJump(c) => Failed(c)
      case JumpTo(t) => Next(t, AfterJump(inst, s))
      case NoJump =>
        if |AfterJump(inst, s)| > lim.maxDepth then Failed(StackBudget) else Next(ip + 1, AfterJump(inst, s))
    else
      match Operate(p, env, inst, s)
      case Err(c) => Failed(c)
      case Ok(s') => if |s'| > lim.maxDepth then Failed(StackBudget) else Next(ip + 1, s')
  }

  // Running from an instruction pointer and a stack, after `executed` instructions.
  function Run(p: Program, env: Env, lim: Limits, ip: nat, s: Stack, executed: nat): Result<Value>
    decreases lim.maxSteps - executed
  {
    if ip >= |p.instructions| then
      if |s| == 1 then Ok(s[0]) else Err(ExpressionInvalid)
    else if Cancelled(lim, executed) then Err(ExecutionCancelled)
    else if executed >= lim.maxSteps then Err(StepBudget)
    else if |s| > lim.maxDepth then Err(StackBudget)
    else
      match Step(p, env, lim, ip, s)
      case Failed(c) => Err(c)
      case Next(ip', s') => Run(p, env, lim, ip', s', executed + 1)
  }

  function Execute(p: Program, env: Env, lim: Limits): Result<Value> {
    Run(p, env, lim, 0, [], 0)
  }
}
