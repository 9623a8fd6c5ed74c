// The peephole pass that removes jumps to the next instruction, and what it keeps.
module Peephole {
  import opened Values
  import opened Bytecode
  import opened Codegen

  predicate Removable(code: seq<Instruction>, i: nat)
    requires i < |code|
  {
    code[i].op.Jump? && code[i].arg == i + 1
  }

  // How many of the first i instructions stay: the new position of instruction i.
  function Kept(code: seq<Instruction>, i: nat): (k: nat)
    requires i <= |code|
    ensures k <= i
  {
    if i == 0 then 0 else Kept(code, i - 1) + (if Removable(code, i - 1) then 0 else 1)
  }

  // Jumps within the program follow their targets; other targets stay as they are.
  function Redirect(code: seq<Instruction>, inst: Instruction): Instruction {
    if IsJump(inst.op) && 0 <= inst.arg <= |code| then inst.(arg := Kept(code, inst.arg)) else inst
  }

  function OptimizedPrefix(code: seq<Instruction>, i: nat): (r: seq<Instruction>)
    requires i <= |code|
    ensures |r| == Kept(code, i)
  {
    if i == 0 then [] else
    OptimizedPrefix(code, i - 1) + (if Removable(code, i - 1) then [] else [Redirect(code, code[i - 1])])
  }

  function Optimized(code: seq<Instruction>): seq<Instruction> {
    OptimizedPrefix(code, |code|)
  }

  method MarkKept(instructions: seq<Instruction>) returns (keep: array<bool>)
    ensures fresh(keep) && keep.Length == |instructions|
    ensures forall j | 0 <= j < |instructions| :: keep[j] == !Removable(instructions, j)
  {
    keep := new bool[|instructions|](i => true);
    for i := 0 to |instructions|
      invariant forall j | 0 <= j < i :: keep[j] == !Removable(instructions, j)
      invariant forall j | i <= j < |instructions| :: keep[j]
    {
      if instructions[i].op.Jump? && instructions[i].arg == i + 1 { keep[i] := false; }
    }
  }

  method MapIndices(instructions: seq<Instruction>, keep: array<bool>) returns (indexMap: array<nat>)
    requires keep.Length == |instructions|
    requires forall j | 0 <= j < |instructions| :: keep[j] == !Removable(instructions, j)
    ensures fresh(indexMap) && indexMap.Length == |instructions| + 1
    ensures forall j | 0 <= j <= |instructions| :: indexMap[j] == Kept(instructions, j)
  {
    indexMap := new nat[|instructions| + 1];
    var next := 0;
    ghost var kept := KeptAll(instructions);
    for i := 0 to |instructions|
      invariant next == kept[i] && forall j | 0 <= j < i :: indexMap[j] == kept[j]
    {
      KeptStep(instructions, i);
      indexMap[i] := next;
      if keep[i] { next := next + 1; }
    }
    indexMap[|instructions|] := next;
  }

  ghost function KeptAll(instructions: seq<Instruction>): (kept: seq<nat>)
    ensures |kept| == |instructions| + 1 && forall j | 0 <= j <= |instructions| :: kept[j] == Kept(instructions, j)
  {
    seq(|instructions| + 1, j requires 0 <= j <= |instructions| => Kept(instructions, j))
  }

  lemma KeptStep(instructions: seq<Instruction>, i: nat)
    requires i < |instructions|
    ensures Kept(instructions, i + 1) == Kept(instructions, i) + if Removable(instructions, i) then 0 else 1
  {
  }

  method OptimizeInstructions(instructions: seq<Instruction>) returns (optimized: seq<Instruction>)
    ensures optimized == Optimized(instructions)
  {
    if |instructions| == 0 { return instructions; }
    var keep := MarkKept(instructions);
    var indexMap := MapIndices(instructions, keep);
    optimized := [];
    for i := 0 to |instructions|
      invariant optimized == OptimizedPrefix(instructions, i)
    {
      if keep[i] {
        var inst := instructions[i];
        if IsJump(inst.op) && 0 <= inst.arg <= |instructions| { inst := inst.(arg := indexMap[inst.arg]); }
        optimized := optimized + [inst];
      }
    }
  }

  lemma {:induction false} KeptMonotone(code: seq<Instruction>, i: nat, j: nat)
    requires i <= j <= |code|
    ensures Kept(code, i) <= Kept(code, j)
    ensures OptimizedPrefix(code, i) <= OptimizedPrefix(code, j)
    decreases j
  {
    if i < j { KeptMonotone(code, i, j - 1); }
  }

  // An instruction that stays is found, redirected, at its new position.
  lemma KeptAt(code: seq<Instruction>, i: nat)
    requires i < |code| && !Removable(code, i)
    ensures Kept(code, i) < |Optimized(code)| && Optimized(code)[Kept(code, i)] == Redirect(code, code[i])
    ensures Kept(code, i + 1) == Kept(code, i) + 1
  {
    KeptMonotone(code, i + 1, |code|);
  }

  lemma LengthsAgree(code: seq<Instruction>, i: nat)
    requires i <= |code|
    ensures Kept(code, i) <= |Optimized(code)| == Kept(code, |code|) <= |code|
  {
    KeptMonotone(code, i, |code|);
  }

  function OptimizedProgram(p: Program): Program {
    p.(instructions := Optimized(p.instructions))
  }

  // q is what the pass makes of p.
  ghost predicate Optimizes(q: Program, p: Program) {
    q.constants == p.constants && q.accessors == p.accessors && q.builtins == p.builtins &&
    q.instructions == Optimized(p.instructions)
  }

  lemma OperateAgrees(q: Program, p: Program, env: Env, inst: Instruction, s: Stack)
    requires Optimizes(q, p) && !IsJump(inst.op)
    ensures Operate(q, env, inst, s) == Operate(p, env, inst, s)
  {
  }

  function Moved(code: seq<Instruction>, ip: nat): nat {
    if ip <= |code| then Kept(code, ip) else ip
  }

  function MovedJump(code: seq<Instruction>, o: Jumped): Jumped {
    match o
    case JumpTo(t) => JumpTo(Moved(code, t))
    case _ => o
  }

  lemma JumpAgrees(q: Program, p: Program, inst: Instruction, s: Stack)
    requires Optimizes(q, p) && IsJump(inst.op)
    ensures JumpOutcome(q, Redirect(p.instructions, inst), s) == MovedJump(p.instructions, JumpOutcome(p, inst, s))
    ensures AfterJump(Redirect(p.instructions, inst), s) == AfterJump(inst, s)
  {
    LengthsAgree(p.instructions, if 0 <= inst.arg <= |p.instructions| then inst.arg else 0);
  }

  function MovedStep(code: seq<Instruction>, r: Stepped): Stepped {
    match r
    case Next(ip, s) => Next(Moved(code, ip), s)
    case Failed(_) => r
  }

  lemma OperationAgrees(q: Program, p: Program, env: Env, lim: Limits, ip: nat, k: nat, s: Stack)
    requires Optimizes(q, p) && ip < |p.instructions| && k < |q.instructions|
    requires q.instructions[k] == p.instructions[ip] && !IsJump(p.instructions[ip].op)
    requires Kept(p.instructions, ip + 1) == k + 1
    ensures Step(q, env, lim, k, s) == MovedStep(p.instructions, Step(p, env, lim, ip, s))
  {
    OperateAgrees(q, p, env, p.instructions[ip], s);
  }

  lemma BranchAgrees(q: Program, p: Program, env: Env, lim: Limits, ip: nat, k: nat, s: Stack)
    requires Optimizes(q, p) && ip < |p.instructions| && k < |q.instructions|
    requires q.instructions[k] == Redirect(p.instructions, p.instructions[ip]) && IsJump(p.instructions[ip].op)
    requires Kept(p.instructions, ip + 1) == k + 1
    ensures Step(q, env, lim, k, s) == MovedStep(p.instructions, Step(p, env, lim, ip, s))
  {
    JumpAgrees(q, p, p.instructions[ip], s);
  }

  // A step over an instruction that stays is the same step at the new positions.
  lemma StepAgrees(q: Program, p: Program, env: Env, lim: Limits, ip: nat, s: Stack)
    requires Optimizes(q, p) && ip < |p.instructions| && !Removable(p.instructions, ip)
    ensures Kept(p.instructions, ip) < |q.instructions|
    ensures Step(q, env, lim, Kept(p.instructions, ip), s) == MovedStep(p.instructions, Step(p, env, lim, ip, s))
  {
    KeptAt(p.instructions, ip);
    if IsJump(p.instructions[ip].op) {
      BranchAgrees(q, p, env, lim, ip, Kept(p.instructions, ip), s);
    } else {
      OperationAgrees(q, p, env, lim, ip, Kept(p.instructions, ip), s);
    }
  }

  // Two runs agree if their first steps do and the runs after them do.
  lemma RunsAgree(q: Program, p: Program, env: Env, lim: Limits, k: nat, ip: nat, s: Stack, n: nat, n': nat)
    requires ip < |p.instructions| && k < |q.instructions| && n' <= n < Allowed(lim)
    ensures var a, b := Step(p, env, lim, ip, s), Step(q, env, lim, k, s);
            (a.Failed? && b == a) ||
            (a.Next? && b.Next? && a.stack == b.stack &&
             Run(q, env, lim, b.ip, b.stack, n' + 1) == Run(p, env, lim, a.ip, a.stack, n + 1)) ==>
              Run(q, env, lim, k, s, n') == Run(p, env, lim, ip, s, n)
  {
  }

  lemma RunPastRemovable(p: Program, env: Env, lim: Limits, ip: nat, s: Stack, n: nat)
    requires ip < |p.instructions| && Removable(p.instructions, ip) && n < Allowed(lim) && |s| <= lim.maxDepth
    ensures Run(p, env, lim, ip, s, n) == Run(p, env, lim, ip + 1, s, n + 1)
  {
    assert Step(p, env, lim, ip, s) == Next(ip + 1, s);
  }

  lemma RunLast(q: Program, p: Program, env: Env, lim: Limits, k: nat, ip: nat, s: Stack, n: nat, n': nat)
    requires ip == |p.instructions| && k == |q.instructions|
    ensures Run(q, env, lim, k, s, n') == Run(p, env, lim, ip, s, n)
  {
  }

  lemma RunInBudget(p: Program, env: Env, lim: Limits, ip: nat, s: Stack, n: nat)
    requires ip < |p.instructions| && |s| <= lim.maxDepth && !Stopped(Run(p, env, lim, ip, s, n))
    ensures n < Allowed(lim)
    ensures Step(p, env, lim, ip, s).Next? ==>
      Run(p, env, lim, Step(p, env, lim, ip, s).ip, Step(p, env, lim, ip, s).stack, n + 1) == Run(p, env, lim, ip, s, n)
  {
  }

  // The budget of steps or the deadline has ended the run.
  predicate Stopped(r: Result<Value>) {
    r == Err(StepBudget) || r == Err(ExecutionCancelled)
  }

  // A program's runs and those of the optimised program, as values: the induction below need not look inside.
  datatype Twin = Twin(p: Program, q: Program, env: Env, lim: Limits,
    run: (nat, Stack, nat) -> Result<Value>, rerun: (nat, Stack, nat) -> Result<Value>)

  ghost predicate IsTwin(t: Twin) {
    Optimizes(t.q, t.p) &&
    (forall ip, s, n {:trigger Run(t.p, t.env, t.lim, ip, s, n)} ::
       t.run(ip, s, n) == Run(t.p, t.env, t.lim, ip, s, n)) &&
    (forall ip, s, n {:trigger Run(t.q, t.env, t.lim, ip, s, n)} ::
       t.rerun(ip, s, n) == Run(t.q, t.env, t.lim, ip, s, n))
  }

  function TwinOf(q: Program, p: Program, env: Env, lim: Limits): (t: Twin)
    requires Optimizes(q, p)
    ensures IsTwin(t) && t.p == p && t.q == q && t.env == env && t.lim == lim
  {
    Twin(p, q, env, lim, (ip: nat, s: Stack, n: nat) => Run(p, env, lim, ip, s, n),
         (ip: nat, s: Stack, n: nat) => Run(q, env, lim, ip, s, n))
  }

  lemma TwinEnds(t: Twin, s: Stack, n: nat, n': nat)
    requires IsTwin(t)
    ensures t.rerun(Kept(t.p.instructions, |t.p.instructions|), s, n') == t.run(|t.p.instructions|, s, n)
  {
    var k := Kept(t.p.instructions, |t.p.instructions|);
    RunLast(t.q, t.p, t.env, t.lim, k, |t.p.instructions|, s, n, n');
    assert t.rerun(k, s, n') == Run(t.q, t.env, t.lim, k, s, n');
  }

  lemma TwinPasses(t: Twin, ip: nat, s: Stack, n: nat)
    requires IsTwin(t) && ip < |t.p.instructions| && Removable(t.p.instructions, ip)
    requires |s| <= t.lim.maxDepth && !Stopped(t.run(ip, s, n))
    ensures n < t.lim.maxSteps && t.run(ip, s, n) == t.run(ip + 1, s, n + 1)
    ensures Kept(t.p.instructions, ip + 1) == Kept(t.p.instructions, ip)
  {
    assert t.run(ip, s, n) == Run(t.p, t.env, t.lim, ip, s, n);
    RunInBudget(t.p, t.env, t.lim, ip, s, n);
    RunPastRemovable(t.p, t.env, t.lim, ip, s, n);
  }

  // A step of both, after which they agree if they agree from there on.
  lemma TwinSteps(t: Twin, ip: nat, s: Stack, n: nat, n': nat) returns (ip': nat, s': Stack)
    requires IsTwin(t) && ip < |t.p.instructions| && !Removable(t.p.instructions, ip)
    requires n' <= n && |s| <= t.lim.maxDepth && !Stopped(t.run(ip, s, n))
    ensures n < t.lim.maxSteps && ip' <= |t.p.instructions| && |s'| <= t.lim.maxDepth
    ensures var k := Kept(t.p.instructions, ip);
            t.rerun(k, s, n') == t.run(ip, s, n) ||
            (t.run(ip', s', n + 1) == t.run(ip, s, n) &&
             (t.rerun(Kept(t.p.instructions, ip'), s', n' + 1) == t.run(ip', s', n + 1) ==>
                t.rerun(k, s, n') == t.run(ip, s, n)))
  {
    var k := Kept(t.p.instructions, ip);
    assert t.run(ip, s, n) == Run(t.p, t.env, t.lim, ip, s, n);
    assert t.rerun(k, s, n') == Run(t.q, t.env, t.lim, k, s, n');
    RunInBudget(t.p, t.env, t.lim, ip, s, n);
    RunsMatch(t.q, t.p, t.env, t.lim, ip, k, s, n, n');
    match Step(t.p, t.env, t.lim, ip, s)
    case Failed(_) => ip', s' := ip, s;
    case Next(i, r) => ip', s' := i, r;
  }

  lemma {:induction false} TwinsAgree(t: Twin, ip: nat, k: nat, s: Stack, n: nat, n': nat)
    requires IsTwin(t) && ip <= |t.p.instructions| && k == Kept(t.p.instructions, ip)
    requires n' <= n && |s| <= t.lim.maxDepth && !Stopped(t.run(ip, s, n))
    ensures t.rerun(k, s, n') == t.run(ip, s, n)
    decreases t.lim.maxSteps - n
  {
    if ip == |t.p.instructions| {
      TwinEnds(t, s, n, n');
    } else if Removable(t.p.instructions, ip) {
      TwinPasses(t, ip, s, n);
      TwinsAgree(t, ip + 1, k, s, n + 1, n');
    } else {
      var ip', s' := TwinSteps(t, ip, s, n, n');
      if t.rerun(k, s, n') != t.run(ip, s, n) {
        TwinsAgree(t, ip', Kept(t.p.instructions, ip'), s', n + 1, n' + 1);
      }
    }
  }

  // For arbitrary programs, with jumps in any direction and to anywhere: whenever the original ends
  // within the step budget and the deadline, the optimised program ends with the same result or error,
  // even if it has fewer steps left over.
  lemma OptimizedRun(q: Program, p: Program, env: Env, lim: Limits, ip: nat, k: nat, s: Stack, n: nat, n': nat)
    requires Optimizes(q, p) && ip <= |p.instructions| && k == Kept(p.instructions, ip)
    requires n' <= n && |s| <= lim.maxDepth && !Stopped(Run(p, env, lim, ip, s, n))
    ensures Run(q, env, lim, k, s, n') == Run(p, env, lim, ip, s, n)
  {
    var t := TwinOf(q, p, env, lim);
    assert t.run(ip, s, n) == Run(p, env, lim, ip, s, n) && t.rerun(k, s, n') == Run(q, env, lim, k, s, n');
    TwinsAgree(t, ip, k, s, n, n');
  }

  lemma RunsMatch(q: Program, p: Program, env: Env, lim: Limits, ip: nat, k: nat, s: Stack, n: nat, n': nat)
    requires Optimizes(q, p) && ip < |p.instructions| && k == Kept(p.instructions, ip) && !Removable(p.instructions, ip)
    requires n' <= n < Allowed(lim) && |s| <= lim.maxDepth
    ensures match Step(p, env, lim, ip, s)
            case Failed(_) => Run(q, env, lim, k, s, n') == Run(p, env, lim, ip, s, n)
            case Next(ip', s') =>
              ip' <= |p.instructions| && |s'| <= lim.maxDepth &&
              (Run(q, env, lim, Kept(p.instructions, ip'), s', n' + 1) == Run(p, env, lim, ip', s', n + 1) ==>
                 Run(q, env, lim, k, s, n') == Run(p, env, lim, ip, s, n))
  {
    StepsMatch(q, p, env, lim, ip, s);
    RunsAgree(q, p, env, lim, k, ip, s, n, n');
  }

  lemma StepsMatch(q: Program, p: Program, env: Env, lim: Limits, ip: nat, s: Stack)
    requires Optimizes(q, p) && ip < |p.instructions| && !Removable(p.instructions, ip) && |s| <= lim.maxDepth
    ensures Kept(p.instructions, ip) < |q.instructions|
    ensures var a, b := Step(p, env, lim, ip, s), Step(q, env, lim, Kept(p.instructions, ip), s);
            if a.Failed? then b == a
            else a.ip <= |p.instructions| && |a.stack| <= lim.maxDepth && b == Next(Kept(p.instructions, a.ip), a.stack)
  {
    StepAgrees(q, p, env, lim, ip, s);
    NextShallow(p, env, lim, ip, s);
  }

  // A step never leaves more on the stack than the limit allows.
  lemma NextShallow(p: Program, env: Env, lim: Limits, ip: nat, s: Stack)
    requires ip < |p.instructions| && |s| <= lim.maxDepth
    ensures match Step(p, env, lim, ip, s)
            case Failed(_) => true
            case Next(ip', s') => ip' <= |p.instructions| && |s'| <= lim.maxDepth
  {
  }

  lemma OptimizedExecutes(p: Program, env: Env, lim: Limits)
    requires !Stopped(Execute(p, env, lim))
    ensures Execute(OptimizedProgram(p), env, lim) == Execute(p, env, lim)
  {
    OptimizedRun(OptimizedProgram(p), p, env, lim, 0, 0, [], 0, 0);
  }

  // On code whose jumps skip at least one instruction the pass changes nothing.
  lemma {:induction false} PrefixUnchanged(code: seq<Instruction>, i: nat)
    requires i <= |code| && forall j | 0 <= j < |code| :: !Removable(code, j)
    ensures Kept(code, i) == i
  {
    if i > 0 { PrefixUnchanged(code, i - 1); }
  }

  lemma NothingRemovable(code: seq<Instruction>)
    requires forall j | 0 <= j < |code| :: !Removable(code, j)
    ensures Optimized(code) == code
  {
    forall i: nat | i <= |code| ensures Kept(code, i) == i { PrefixUnchanged(code, i); }
    forall i | 0 <= i < |code| ensures Optimized(code)[i] == code[i] { KeptAt(code, i); }
  }

  lemma ForwardUnchanged(code: seq<Instruction>)
    requires ForwardJumps(code, 0, |code|, |code|)
    ensures Optimized(code) == code
  {
    NothingRemovable(code);
  }

  // When one pass is enough. Removing a jump can bring another jump next to its target, unless something that
  // stays is in between.

  predicate StaysApart(code: seq<Instruction>, i: nat)
    requires i < |code|
  {
    code[i].op.Jump? && i + 1 < code[i].arg <= |code| ==> Kept(code, code[i].arg) > Kept(code, i) + 1
  }

  lemma RemovableAfter(code: seq<Instruction>, i: nat)
    requires i < |code| && !Removable(code, i)
    ensures Kept(code, i) < |Optimized(code)| && (Removable(Optimized(code), Kept(code, i)) <==> !StaysApart(code, i))
  {
    KeptAt(code, i);
    if code[i].op.Jump? && 0 <= code[i].arg <= |code| {
      if code[i].arg <= i { KeptMonotone(code, code[i].arg, i); } else { KeptMonotone(code, i + 1, code[i].arg); }
    }
  }

  // Every position of the optimised code is that of an instruction that stayed.
  lemma {:induction false} StayedFrom(code: seq<Instruction>, n: nat, k: nat) returns (i: nat)
    requires n <= |code| && k < Kept(code, n)
    ensures i < n && !Removable(code, i) && Kept(code, i) == k
  {
    if k < Kept(code, n - 1) { i := StayedFrom(code, n - 1, k); } else { i := n - 1; }
  }

  lemma {:induction false} KeptSlowly(code: seq<Instruction>, i: nat, j: nat)
    requires i <= j <= |code|
    ensures Kept(code, j) - Kept(code, i) <= j - i
    decreases j
  {
    if i < j { KeptSlowly(code, i, j - 1); }
  }

  lemma RemovedShortens(code: seq<Instruction>, k: nat)
    requires k < |code| && Removable(code, k)
    ensures |Optimized(code)| < |code|
  {
    KeptSlowly(code, k + 1, |code|);
  }

  // A second pass changes nothing if and only if that holds of every jump.
  lemma OnePassExact(code: seq<Instruction>)
    ensures Optimized(Optimized(code)) == Optimized(code) <==> forall i | 0 <= i < |code| :: StaysApart(code, i)
  {
    if i :| 0 <= i < |code| && !StaysApart(code, i) {
      RemovableAfter(code, i);
      RemovedShortens(Optimized(code), Kept(code, i));
    } else {
      forall k | 0 <= k < |Optimized(code)| ensures !Removable(Optimized(code), k) {
        var i := StayedFrom(code, |code|, k);
        RemovableAfter(code, i);
      }
      NothingRemovable(Optimized(code));
    }
  }

  // Two jumps to the end: the first one is next to its target only when the second is gone.
  lemma NotIdempotent()
    ensures var code := [Instruction(Jump, 2, 0), Instruction(Jump, 2, 0)];
            Optimized(Optimized(code)) != Optimized(code)
  {
    var code := [Instruction(Jump, 2, 0), Instruction(Jump, 2, 0)];
    assert Kept(code, 0) == 0 && Kept(code, 1) == 1 && Kept(code, 2) == 1;
    assert !StaysApart(code, 0);
    OnePassExact(code);
  }
}
