// From the text of a rule to its value: parsing, binding, compiling and running, end to end.
module Pipeline {
  import opened Values
  import opened Schema
  import Ast
  import opened Parser
  import opened Tokenizer
  import opened Minimality
  import opened Binder
  import opened Typing
  import opened Acceptance
  import opened TypedTexts
  import opened TypedPrograms
  import opened Interpreter
  import B = Bound
  import opened Bytecode
  import opened Pools
  import opened Folding
  import opened Compiler
  import opened Simulation
  import opened VirtualMachine
  import opened Correctness
  import opened Snapshot

  // How the source text is read: how numbers are, and what floating-point operations do.
  datatype Language = Language(nums: NumberSyntax, fl: FloatOps)

  function BindString(source: string, reg: Registry, lang: Language): Result<(Ast.Expr, B.Bound)> {
    var ast :- ParseExpression(source, lang.nums);
    var bound :- Bind(ast, reg);
    Ok((ast, bound))
  }

  // A compiled expression is what a fresh compiler makes of the source's bound tree, with or without the trees.
  ghost predicate Produced(c: Compiled, source: string, reg: Registry, lang: Language) {
    var bound := BindString(source, reg, lang);
    bound.Ok? && c.source == source && c.resultType == bound.value.1.info.typ &&
    exists after :: ProgramOf(c.program, Fold(bound.value.1, lang.fl), EMPTY_POOLS, after, lang.fl)
  }

  // Compiling fails exactly if parsing or binding does, with its error.
  ghost predicate CompilesAs(r: Result<Compiled>, source: string, reg: Registry, lang: Language) {
    var bound := BindString(source, reg, lang);
    if r.Ok? then Produced(r.value, source, reg, lang) else bound == Err(r.code)
  }

  method CompileRule(source: string, reg: Registry, lang: Language) returns (r: Result<Compiled>)
    ensures CompilesAs(r, source, reg, lang)
    ensures r.Ok? <==>
            ParseExpression(source, lang.nums).Ok? &&
            Meant(ParseExpression(source, lang.nums).value, reg, lang.fl)
  {
    if ParseExpression(source, lang.nums).Ok? { BindExact(ParseExpression(source, lang.nums).value, reg, lang.fl); }
    var tokens := TokenizeExpression(source);
    if tokens.Err? { return Err(tokens.code); }
    var parser := new ExpressionParser(tokens.value, lang.nums);
    var ast := parser.ParseExpression(0);
    if ast.Err? { return Err(ast.code); }
    if !Peek(parser.tokens, parser.pos).End? { return Err(ExpressionInvalid); }
    var bound := Bind(ast.value, reg);
    if bound.Err? { return Err(bound.code); }
    var compiler := new BytecodeCompiler(lang.fl);
    var p := compiler.Compile(bound.value);
    return Ok(Compiled(source, Some(ast.value), Some(bound.value), p, bound.value.info.typ));
  }

  // Storing a compiled expression and reading it back keeps it a product of the same source.
  lemma RestoredIsProduced(c: Compiled, source: string, reg: Registry, lang: Language)
    requires Produced(c, source, reg, lang)
    ensures RestoreCompiled(SnapshotCompiled(c)).Ok? &&
            Produced(RestoreCompiled(SnapshotCompiled(c)).value, source, reg, lang)
  {
    CompiledRoundTrip(c);
  }

  // The conditions under which the three evaluators see the same thing.
  ghost predicate Unproblematic(source: string, reg: Registry, lang: Language, ctx: Context) {
    var bound := BindString(source, reg, lang);
    bound.Ok? && ReferencesAgree(bound.value.0, reg, Env(ctx, lang.fl)) &&
    B.BoolRights(bound.value.1, Env(ctx, lang.fl), false) &&
    Unambiguous(Fold(bound.value.1, lang.fl), EMPTY_POOLS, lang.fl)
  }

  // Running the bytecode of a rule gives what walking its syntax tree gives, value or error.
  lemma RuleMeansInterpreter(c: Compiled, source: string, reg: Registry, lang: Language, ctx: Context, lim: Limits)
    requires Produced(c, source, reg, lang) && Unproblematic(source, reg, lang, ctx)
    ensures var (ast, bound) := BindString(source, reg, lang).value;
            Agree(Execute(c.program, Env(ctx, lang.fl), lim), EvalExpr(ast, Env(ctx, lang.fl)),
                  WithinLimits(Fold(bound, lang.fl), lim))
  {
    var (ast, bound) := BindString(source, reg, lang).value;
    var env := Env(ctx, lang.fl);
    var after :| ProgramOf(c.program, Fold(bound, lang.fl), EMPTY_POOLS, after, lang.fl);
    CompiledMeansEval(c.program, bound, EMPTY_POOLS, after, env, lim);
    BoundAgrees(ast, reg, env);
  }

  // Running the bytecode of a rule in a context that conforms to the schemas gives null or a value of the
  // rule's type, and fails only where a division or a `get` can, or where a budget it may exceed runs out.
  // Null right operands of && and ||, on which it may differ from the interpreter, do not change that.
  lemma RuleIsSafe(c: Compiled, source: string, reg: Registry, lang: Language, ctx: Context, lim: Limits, deep: bool)
    requires Produced(c, source, reg, lang) && Conforms(ctx, reg, deep)
    requires var bound := BindString(source, reg, lang).value.1;
             JoinsSound(bound, deep) && Unambiguous(Fold(bound, lang.fl), EMPTY_POOLS, lang.fl)
    ensures var bound, r := BindString(source, reg, lang).value.1, Execute(c.program, Env(ctx, lang.fl), lim);
            c.resultType == bound.info.typ &&
            (Safe(r, bound, deep) || (!WithinLimits(Fold(bound, lang.fl), lim) && Interrupted(r)))
  {
    var (ast, bound) := BindString(source, reg, lang).value;
    var env := Env(ctx, lang.fl);
    ParsedIsTyped(source, ast, lang.nums);
    BindWellTyped(ast, reg, ctx, deep);
    FoldedSoundness(bound, env, B.Raw, deep);
    var after :| ProgramOf(c.program, Fold(bound, lang.fl), EMPTY_POOLS, after, lang.fl);
    CompiledMeansRaw(c.program, Fold(bound, lang.fl), EMPTY_POOLS, after, env, lim);
  }

  // Evaluating a compiled expression runs its program on a machine with the default limits.
  method EvalCompiled(c: Compiled, ctx: Context, lang: Language) returns (r: Result<Value>)
    ensures r == Execute(c.program, Env(ctx, lang.fl), NewLimits(0, 0, None))
  {
    var vm := new BytecodeVM(0, 0, None);
    r := vm.Eval(c.program, Env(ctx, lang.fl));
  }

  // A rule from its text to its value: what the interpreter computes, unless the rule is one on which they may
  // differ or it is too large for the default limits; and the error of parsing or binding if there is one.
  method RunRule(source: string, reg: Registry, lang: Language, ctx: Context) returns (r: Result<Value>)
    ensures var bound := BindString(source, reg, lang);
            (bound.Err? ==> r == Err(bound.code)) &&
            (Unproblematic(source, reg, lang, ctx) &&
             WithinLimits(Fold(bound.value.1, lang.fl), NewLimits(0, 0, None)) ==>
              r == EvalExpr(bound.value.0, Env(ctx, lang.fl)))
  {
    var c := CompileRule(source, reg, lang);
    if c.Err? { return Err(c.code); }
    r := EvalCompiled(c.value, ctx, lang);
    if Unproblematic(source, reg, lang, ctx) {
      RuleMeansInterpreter(c.value, source, reg, lang, ctx, NewLimits(0, 0, None));
    }
  }
}
