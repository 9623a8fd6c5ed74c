// Type soundness of what is compiled: the folded tree, with right operands of && and || left as they are.
module TypedPrograms {
  import opened Values
  import opened Schema
  import opened Typing
  import B = Bound
  import opened Folding

  // Folding one node changes nothing, except that && and || of constants become booleans.

  lemma FoldUnaryMeans(e: B.Bound, env: Env, m: B.RightOperand)
    requires e.Unary?
    ensures B.EvalIn(FoldUnary(e, env.fl), env, m) == B.EvalIn(e, env, m)
  {
  }

  lemma FoldBinaryMeans(e: B.Bound, env: Env, m: B.RightOperand)
    requires e.Binary?
    ensures var r := B.EvalIn(FoldBinary(e, env.fl), env, m);
            r == B.EvalIn(e, env, m) || (!e.bop.Strict? && r.Ok? && r.value.Bool?)
  {
  }

  lemma FoldCondMeans(e: B.Bound, env: Env, m: B.RightOperand)
    requires e.Cond?
    ensures B.EvalIn(FoldCond(e), env, m) == B.EvalIn(e, env, m)
  {
  }

  lemma FoldConstantMeans(e: B.Bound, env: Env, m: B.RightOperand)
    requires e.Call? || e.ListOf? || e.MapOf?
    ensures B.EvalIn(FoldConstant(e, env.fl), env, m) == B.EvalIn(e, env, m)
  {
    if FoldConstant(e, env.fl) != e {
      match e
      case Call(_, args, _) => LiteralsMean(args, Nowhere(env.fl), B.Coerced, env, m);
      case ListOf(es, _, _) => LiteralsMean(es, Nowhere(env.fl), B.Coerced, env, m);
      case MapOf(es, _, _) => LiteralEntriesMean(es, Nowhere(env.fl), B.Coerced, env, m);
      case _ =>
    }
  }

  // A well-typed tree whose conditionals join soundly is safe after folding too, null right operands and all.
  lemma {:induction false} FoldedSoundness(b: B.Bound, env: Env, m: B.RightOperand, deep: bool)
    requires WellTyped(b, env.ctx, deep) && JoinsSound(b, deep)
    ensures Safe(B.EvalIn(Fold(b, env.fl), env, m), b, deep)
    decreases b, 1
  {
    match b
    case Literal(_, _) =>
    case Ref(_, _) =>
    case Unary(op, x, info) =>
      FoldedSoundness(x, env, m, deep);
      UnaryStep(b, Fold(x, env.fl), env, m, deep);
      FoldUnaryMeans(B.Unary(op, Fold(x, env.fl), info), env, m);
    case Binary(op, l, r, info) =>
      FoldedSoundness(l, env, m, deep);
      FoldedSoundness(r, env, m, deep);
      BinaryStep(b, Fold(l, env.fl), Fold(r, env.fl), env, m, deep);
      FoldBinaryMeans(B.Binary(op, Fold(l, env.fl), Fold(r, env.fl), info), env, m);
    case Cond(c, t, f, info) =>
      FoldedSoundness(c, env, m, deep);
      FoldedSoundness(t, env, m, deep);
      FoldedSoundness(f, env, m, deep);
      CondStep(b, Fold(c, env.fl), Fold(t, env.fl), Fold(f, env.fl), env, m, deep);
      FoldCondMeans(B.Cond(Fold(c, env.fl), Fold(t, env.fl), Fold(f, env.fl), info), env, m);
    case _ => FoldedSoundnessContainer(b, env, m, deep);
  }

  lemma {:induction false} FoldedSoundnessContainer(b: B.Bound, env: Env, m: B.RightOperand, deep: bool)
    requires (b.Call? || b.ListOf? || b.MapOf?) && WellTyped(b, env.ctx, deep) && JoinsSound(b, deep)
    ensures Safe(B.EvalIn(Fold(b, env.fl), env, m), b, deep)
    decreases b, 0
  {
    match b
    case Call(fn, args, info) =>
      FoldedSoundnessAll(b, args, env, m, deep);
      FoldAllLiterals(args, env.fl);
      CallStep(b, FoldAll(args, env.fl), env, m, deep);
      FoldConstantMeans(B.Call(fn, FoldAll(args, env.fl), info), env, m);
    case ListOf(es, et, info) =>
      FoldedSoundnessAll(b, es, env, m, deep);
      ListStep(b, FoldAll(es, env.fl), env, m, deep);
      FoldConstantMeans(B.ListOf(FoldAll(es, env.fl), et, info), env, m);
    case MapOf(es, vt, info) =>
      FoldedSoundnessEntries(b, es, vt, env, m, deep);
      MapStep(b, FoldEntries(es, env.fl), env, m, deep);
      FoldConstantMeans(B.MapOf(FoldEntries(es, env.fl), vt, info), env, m);
  }

  // A literal argument stays as it is.
  lemma {:induction false} FoldAllLiterals(es: seq<B.Bound>, fl: FloatOps)
    ensures forall i | 0 <= i < |es| && es[i].Literal? :: FoldAll(es, fl)[i] == es[i]
  {
    if es != [] { FoldAllLiterals(es[..|es| - 1], fl); }
  }

  lemma {:induction false} FoldedSoundnessAll(b: B.Bound, es: seq<B.Bound>, env: Env, m: B.RightOperand, deep: bool)
    requires forall i | 0 <= i < |es| :: es[i] < b && WellTyped(es[i], env.ctx, deep) && JoinsSound(es[i], deep)
    ensures SafeAll(B.EvalAllIn(FoldAll(es, env.fl), env, m), es, deep)
    decreases b, 0, |es|
  {
    if es != [] {
      FoldedSoundnessAll(b, es[..|es| - 1], env, m, deep);
      FoldedSoundness(es[|es| - 1], env, m, deep);
      assert FoldAll(es, env.fl)[..|es| - 1] == FoldAll(es[..|es| - 1], env.fl);
      AllStep(es, FoldAll(es, env.fl), env, m, deep);
    }
  }

  lemma {:induction false} FoldedSoundnessEntries(b: B.Bound, es: seq<B.Entry>, vt: ValueType, env: Env,
                                                  m: B.RightOperand, deep: bool)
    requires forall i | 0 <= i < |es| ::
      es[i].value < b && WellTyped(es[i].value, env.ctx, deep) && JoinsSound(es[i].value, deep) &&
      Subfield(Scalar(es[i].value.info.typ), Scalar(vt), deep)
    ensures SafeEntries(B.EvalEntriesIn(FoldEntries(es, env.fl), env, m), es, vt)
    decreases b, 0, |es|
  {
    if es != [] {
      FoldedSoundnessEntries(b, es[..|es| - 1], vt, env, m, deep);
      FoldedSoundness(es[|es| - 1].value, env, m, deep);
      assert FoldEntries(es, env.fl)[..|es| - 1] == FoldEntries(es[..|es| - 1], env.fl);
      EntriesStep(es, FoldEntries(es, env.fl), vt, env, m, deep);
    }
  }
}
