// The virtual machine's interpreter loop.
module VirtualMachine {
  import opened Values
  import opened Bytecode

  class BytecodeVM {
    const limits: Limits

    constructor (maxSteps: int, maxDepth: int, context: Option<Deadline>)
      ensures limits == NewLimits(maxSteps, maxDepth, context)
      ensures limits.maxSteps == (if maxSteps <= 0 then 10_000 else maxSteps)
      ensures limits.maxDepth == (if maxDepth <= 0 then 1024 else maxDepth)
      ensures limits.deadline == (if context.None? then Never else context.value)
    {
      limits := NewLimits(maxSteps, maxDepth, context);
    }

    // The loop over instruction pointer and stack runs the program to the result Run defines.
    method Eval(program: Program, env: Env) returns (r: Result<Value>)
      ensures r == Execute(program, env, limits)
    {
      var stack: seq<Value> := [];
      var ip: nat, executed: nat := 0, 0;
      while ip < |program.instructions|
        invariant Run(program, env, limits, ip, stack, executed) == Execute(program, env, limits)
        decreases limits.maxSteps - executed
      {
        if Cancelled(limits, executed) { return Err(ExecutionCancelled); }
        if executed >= limits.maxSteps { return Err(StepBudget); }
        if |stack| > limits.maxDepth { return Err(StackBudget); }
        executed := executed + 1;
        var inst := program.instructions[ip];
        if IsJump(inst.op) {
          var jump := JumpOutcome(program, inst, stack);
          if jump.BadJump? { return Err(jump.code); }
          stack := AfterJump(inst, stack);
          if jump.JumpTo? {
            ip := jump.target;
            continue;
          }
        } else {
          var after := Operate(program, env, inst, stack);
          if after.Err? { return Err(after.code); }
          stack := after.value;
        }
        if |stack| > limits.maxDepth { return Err(StackBudget); }
        ip := ip + 1;
      }
      if |stack| != 1 { return Err(ExpressionInvalid); }
      return Ok(stack[0]);
    }
  }
}
