// Constant folding of bound trees.
module Folding {
  import opened Values
  import opened Operators
  import opened Bound
  import opened Codegen

  function LiteralOr(r: Result<Value>, e: Bound): Bound {
    match r
    case Ok(v) => Literal(v, e.info)
    case Err(_) => e
  }

  // The optimiser evaluates constant nodes in an empty context.
  function Nowhere(fl: FloatOps): Env { Env(map[], fl) }

  predicate AllLiteral(es: seq<Bound>) {
    forall i | 0 <= i < |es| :: es[i].Literal?
  }

  predicate AllLiteralEntries(es: seq<Entry>) {
    forall i | 0 <= i < |es| :: es[i].value.Literal?
  }

  function FoldUnary(e: Bound, fl: FloatOps): Bound
    requires e.Unary?
  {
    if e.operand.Literal? then LiteralOr(UnaryValue(e.op, e.operand.value, fl), e) else e
  }

  function FoldBinary(e: Bound, fl: FloatOps): Bound
    requires e.Binary?
  {
    if !e.left.Literal? then e
    else
      match e.bop
      case Strict(op) =>
        if e.right.Literal? then LiteralOr(BinaryValue(op, e.left.value, e.right.value, fl), e) else e
      case _ =>
        if Truthy(e.left.value) == e.bop.Or? then Literal(Bool(e.bop.Or?), e.info)
        else if e.right.Literal? then Literal(Bool(Truthy(e.right.value)), e.info)
        else e
  }

  // A literal condition selects one of the arms; the node's own type and field go with the other one.
  function FoldCond(e: Bound): Bound
    requires e.Cond?
  {
    if !e.cond.Literal? then e else if Truthy(e.cond.value) then e.thn else e.els
  }

  function FoldConstant(e: Bound, fl: FloatOps): Bound
    requires e.Call? || e.ListOf? || e.MapOf?
  {
    var constant := if e.MapOf? then AllLiteralEntries(e.entries) else AllLiteral(if e.Call? then e.args else e.elems);
    if constant then LiteralOr(Eval(e, Nowhere(fl)), e) else e
  }

  function Fold(e: Bound, fl: FloatOps): Bound
    decreases e, 1
  {
    match e
    case Literal(_, _) => e
    case Ref(_, _) => e
    case Unary(op, x, info) => FoldUnary(Unary(op, Fold(x, fl), info), fl)
    case Binary(op, l, r, info) => FoldBinary(Binary(op, Fold(l, fl), Fold(r, fl), info), fl)
    case Cond(c, t, f, info) => FoldCond(Cond(Fold(c, fl), Fold(t, fl), Fold(f, fl), info))
    case Call(fn, args, info) => FoldConstant(Call(fn, FoldAll(args, fl), info), fl)
    case ListOf(es, et, info) => FoldConstant(ListOf(FoldAll(es, fl), et, info), fl)
    case MapOf(es, vt, info) => FoldConstant(MapOf(FoldEntries(es, fl), vt, info), fl)
  }

  function FoldAll(es: seq<Bound>, fl: FloatOps): (r: seq<Bound>)
    ensures |r| == |es|
    decreases es, 0
  {
    if es == [] then [] else FoldAll(es[..|es| - 1], fl) + [Fold(es[|es| - 1], fl)]
  }

  function FoldEntries(es: seq<Entry>, fl: FloatOps): (r: seq<Entry>)
    ensures |r| == |es|
    decreases es, 0
  {
    if es == [] then [] else
    var last := es[|es| - 1];
    FoldEntries(es[..|es| - 1], fl) + [Entry(last.key, Fold(last.value, fl))]
  }

  // Constant containers evaluate the same everywhere.
  lemma {:induction false} LiteralsMean(es: seq<Bound>, a: Env, m: RightOperand, b: Env, n: RightOperand)
    requires AllLiteral(es)
    ensures EvalAllIn(es, a, m) == EvalAllIn(es, b, n)
  {
    if es != [] { LiteralsMean(es[..|es| - 1], a, m, b, n); }
  }

  lemma {:induction false} LiteralEntriesMean(es: seq<Entry>, a: Env, m: RightOperand, b: Env, n: RightOperand)
    requires AllLiteralEntries(es)
    ensures EvalEntriesIn(es, a, m) == EvalEntriesIn(es, b, n)
  {
    if es != [] { LiteralEntriesMean(es[..|es| - 1], a, m, b, n); }
  }

  lemma FoldConstantPreserves(e: Bound, env: Env)
    requires e.Call? || e.ListOf? || e.MapOf?
    ensures Eval(FoldConstant(e, env.fl), env) == Eval(e, env)
  {
    if FoldConstant(e, env.fl) != e {
      match e
      case Call(_, args, _) => LiteralsMean(args, Nowhere(env.fl), Coerced, env, Coerced);
      case ListOf(es, _, _) => LiteralsMean(es, Nowhere(env.fl), Coerced, env, Coerced);
      case MapOf(es, _, _) => LiteralEntriesMean(es, Nowhere(env.fl), Coerced, env, Coerced);
      case _ =>
    }
  }

  // Folding keeps the value or the error of every tree in every context.
  lemma {:induction false} FoldPreserves(e: Bound, env: Env)
    ensures Eval(Fold(e, env.fl), env) == Eval(e, env)
    decreases e, 1
  {
    match e
    case Literal(_, _) =>
    case Ref(_, _) =>
    case Unary(_, x, _) => FoldPreserves(x, env);
    case Binary(_, l, r, _) =>
      FoldPreserves(l, env);
      FoldPreserves(r, env);
    case Cond(c, t, f, _) =>
      FoldPreserves(c, env);
      FoldPreserves(t, env);
      FoldPreserves(f, env);
    case Call(fn, args, info) =>
      FoldAllPreserves(args, env);
      FoldConstantPreserves(Call(fn, FoldAll(args, env.fl), info), env);
    case ListOf(es, et, info) =>
      FoldAllPreserves(es, env);
      FoldConstantPreserves(ListOf(FoldAll(es, env.fl), et, info), env);
    case MapOf(es, vt, info) =>
      FoldEntriesPreserves(es, env);
      FoldConstantPreserves(MapOf(FoldEntries(es, env.fl), vt, info), env);
  }

  lemma {:induction false} FoldAllPreserves(es: seq<Bound>, env: Env)
    ensures EvalAllIn(FoldAll(es, env.fl), env, Coerced) == EvalAllIn(es, env, Coerced)
    decreases es, 0
  {
    if es != [] {
      FoldAllPreserves(es[..|es| - 1], env);
      FoldPreserves(es[|es| - 1], env);
      assert FoldAll(es, env.fl)[..|es| - 1] == FoldAll(es[..|es| - 1], env.fl);
    }
  }

  lemma {:induction false} FoldEntriesPreserves(es: seq<Entry>, env: Env)
    ensures EvalEntriesIn(FoldEntries(es, env.fl), env, Coerced) == EvalEntriesIn(es, env, Coerced)
    decreases es, 0
  {
    if es != [] {
      FoldEntriesPreserves(es[..|es| - 1], env);
      FoldPreserves(es[|es| - 1].value, env);
      assert FoldEntries(es, env.fl)[..|es| - 1] == FoldEntries(es[..|es| - 1], env.fl);
    }
  }

  // Folding keeps reached right operands boolean where they matter.
  lemma {:induction false} FoldKeepsBoolRights(e: Bound, env: Env, tested: bool)
    requires BoolRights(e, env, tested)
    ensures BoolRights(Fold(e, env.fl), env, tested)
    decreases e, 1
  {
    match e
    case Literal(_, _) =>
    case Ref(_, _) =>
    case Unary(_, x, _) => FoldKeepsBoolRights(x, env, false);
    case Binary(_, _, _, _) => FoldBinaryKeepsBoolRights(e, env, tested);
    case Cond(c, t, f, _) =>
      FoldKeepsBoolRights(c, env, true);
      FoldPreserves(c, env);
      if BoolRights(t, env, tested) { FoldKeepsBoolRights(t, env, tested); }
      if BoolRights(f, env, tested) { FoldKeepsBoolRights(f, env, tested); }
    case Call(_, args, _) => FoldAllKeepsBoolRights(args, env);
    case ListOf(es, _, _) => FoldAllKeepsBoolRights(es, env);
    case MapOf(es, _, _) => FoldEntriesKeepBoolRights(es, env);
  }

  lemma {:induction false} FoldBinaryKeepsBoolRights(e: Bound, env: Env, tested: bool)
    requires e.Binary? && BoolRights(e, env, tested)
    ensures BoolRights(Fold(e, env.fl), env, tested)
    decreases e, 0
  {
    var left, right := !e.bop.Strict?, !e.bop.Strict? && tested;
    FoldKeepsBoolRights(e.left, env, left);
    FoldPreserves(e.left, env);
    FoldPreserves(e.right, env);
    if BoolRights(e.right, env, right) { FoldKeepsBoolRights(e.right, env, right); }
  }

  lemma {:induction false} FoldAllKeepsBoolRights(es: seq<Bound>, env: Env)
    requires AllBoolRights(es, env)
    ensures AllBoolRights(FoldAll(es, env.fl), env)
    decreases es, 0
  {
    if es != [] {
      FoldAllKeepsBoolRights(es[..|es| - 1], env);
      FoldAllPreserves(es[..|es| - 1], env);
      if BoolRights(es[|es| - 1], env, false) { FoldKeepsBoolRights(es[|es| - 1], env, false); }
      assert FoldAll(es, env.fl)[..|es| - 1] == FoldAll(es[..|es| - 1], env.fl);
    }
  }

  lemma {:induction false} FoldEntriesKeepBoolRights(es: seq<Entry>, env: Env)
    requires EntriesBoolRights(es, env)
    ensures EntriesBoolRights(FoldEntries(es, env.fl), env)
    decreases es, 0
  {
    if es != [] {
      FoldEntriesKeepBoolRights(es[..|es| - 1], env);
      FoldEntriesPreserves(es[..|es| - 1], env);
      if BoolRights(es[|es| - 1].value, env, false) { FoldKeepsBoolRights(es[|es| - 1].value, env, false); }
      assert FoldEntries(es, env.fl)[..|es| - 1] == FoldEntries(es[..|es| - 1], env.fl);
    }
  }

  lemma FoldUnaryShrinks(e: Bound, fl: FloatOps)
    requires e.Unary?
    ensures Size(FoldUnary(e, fl)) <= Size(e) && Depth(FoldUnary(e, fl)) <= Depth(e)
  {
  }

  lemma FoldConstantShrinks(e: Bound, fl: FloatOps)
    requires e.Call? || e.ListOf? || e.MapOf?
    ensures Size(FoldConstant(e, fl)) <= Size(e) && Depth(FoldConstant(e, fl)) <= Depth(e)
  {
    assert Size(LiteralOr(Eval(e, Nowhere(fl)), e)) <= Size(e) && Depth(LiteralOr(Eval(e, Nowhere(fl)), e)) <= Depth(e);
  }

  lemma FoldBinaryShrinks(e: Bound, fl: FloatOps)
    requires e.Binary?
    ensures Size(FoldBinary(e, fl)) <= Size(e) && Depth(FoldBinary(e, fl)) <= Depth(e)
  {
  }

  lemma FoldCondShrinks(e: Bound)
    requires e.Cond?
    ensures Size(FoldCond(e)) <= Size(e) && Depth(FoldCond(e)) <= Depth(e)
  {
  }

  // Folding never makes the code longer or its stack deeper.
  lemma {:induction false} FoldShrinks(e: Bound, fl: FloatOps)
    ensures Size(Fold(e, fl)) <= Size(e) && Depth(Fold(e, fl)) <= Depth(e)
    decreases e, 1
  {
    match e
    case Literal(_, _) =>
    case Ref(_, _) =>
    case Unary(op, x, info) =>
      FoldShrinks(x, fl);
      FoldUnaryShrinks(Unary(op, Fold(x, fl), info), fl);
    case Binary(_, _, _, _) => FoldShrinksBinary(e, fl);
    case Cond(_, _, _, _) => FoldShrinksCond(e, fl);
    case Call(_, _, _) => FoldShrinksCall(e, fl);
    case ListOf(_, _, _) => FoldShrinksList(e, fl);
    case MapOf(_, _, _) => FoldShrinksMap(e, fl);
  }

  lemma {:induction false} FoldShrinksCall(e: Bound, fl: FloatOps)
    requires e.Call?
    ensures Size(Fold(e, fl)) <= Size(e) && Depth(Fold(e, fl)) <= Depth(e)
    decreases e, 0
  {
    FoldAllShrinks(e.args, fl);
    ContainerShrinks(e, Call(e.fn, FoldAll(e.args, fl), e.info), fl);
  }

  lemma {:induction false} FoldShrinksList(e: Bound, fl: FloatOps)
    requires e.ListOf?
    ensures Size(Fold(e, fl)) <= Size(e) && Depth(Fold(e, fl)) <= Depth(e)
    decreases e, 0
  {
    FoldAllShrinks(e.elems, fl);
    ContainerShrinks(e, ListOf(FoldAll(e.elems, fl), e.elemType, e.info), fl);
  }

  lemma {:induction false} FoldShrinksMap(e: Bound, fl: FloatOps)
    requires e.MapOf?
    ensures Size(Fold(e, fl)) <= Size(e) && Depth(Fold(e, fl)) <= Depth(e)
    decreases e, 0
  {
    FoldEntriesShrink(e.entries, fl);
    ContainerShrinks(e, MapOf(FoldEntries(e.entries, fl), e.valueType, e.info), fl);
  }

  // A container with folded elements is no larger, before and after it is folded itself.
  lemma ContainerShrinks(e: Bound, folded: Bound, fl: FloatOps)
    requires (e.Call? && folded.Call?) || (e.ListOf? && folded.ListOf?) || (e.MapOf? && folded.MapOf?)
    requires e.Call? ==> ElementsShrink(e.args, folded.args)
    requires e.ListOf? ==> ElementsShrink(e.elems, folded.elems)
    requires e.MapOf? ==> EntriesShrink(e.entries, folded.entries)
    ensures Size(FoldConstant(folded, fl)) <= Size(e) && Depth(FoldConstant(folded, fl)) <= Depth(e)
  {
    assert Size(folded) <= Size(e) && Depth(folded) <= Depth(e);
    FoldConstantShrinks(folded, fl);
  }

  ghost predicate ElementsShrink(es: seq<Bound>, folded: seq<Bound>) {
    |folded| == |es| && SizeAll(folded) <= SizeAll(es) && DepthAll(folded) <= DepthAll(es)
  }

  ghost predicate EntriesShrink(es: seq<Entry>, folded: seq<Entry>) {
    |folded| == |es| && SizeEntries(folded) <= SizeEntries(es) && DepthEntries(folded) <= DepthEntries(es)
  }

  lemma {:induction false} FoldShrinksBinary(e: Bound, fl: FloatOps)
    requires e.Binary?
    ensures Size(Fold(e, fl)) <= Size(e) && Depth(Fold(e, fl)) <= Depth(e)
    decreases e, 0
  {
    FoldShrinks(e.left, fl);
    FoldShrinks(e.right, fl);
    FoldBinaryShrinks(Binary(e.bop, Fold(e.left, fl), Fold(e.right, fl), e.info), fl);
  }

  lemma {:induction false} FoldShrinksCond(e: Bound, fl: FloatOps)
    requires e.Cond?
    ensures Size(Fold(e, fl)) <= Size(e) && Depth(Fold(e, fl)) <= Depth(e)
    decreases e, 0
  {
    FoldShrinks(e.cond, fl);
    FoldShrinks(e.thn, fl);
    FoldShrinks(e.els, fl);
    FoldCondShrinks(Cond(Fold(e.cond, fl), Fold(e.thn, fl), Fold(e.els, fl), e.info));
  }

  lemma {:induction false} FoldAllShrinks(es: seq<Bound>, fl: FloatOps)
    ensures SizeAll(FoldAll(es, fl)) <= SizeAll(es) && DepthAll(FoldAll(es, fl)) <= DepthAll(es)
    decreases es, 0
  {
    if es != [] {
      FoldAllShrinks(es[..|es| - 1], fl);
      FoldShrinks(es[|es| - 1], fl);
      assert FoldAll(es, fl)[..|es| - 1] == FoldAll(es[..|es| - 1], fl);
    }
  }

  lemma {:induction false} FoldEntriesShrink(es: seq<Entry>, fl: FloatOps)
    ensures SizeEntries(FoldEntries(es, fl)) <= SizeEntries(es) && DepthEntries(FoldEntries(es, fl)) <= DepthEntries(es)
    decreases es, 0
  {
    if es != [] {
      FoldEntriesShrink(es[..|es| - 1], fl);
      FoldShrinks(es[|es| - 1].value, fl);
      assert FoldEntries(es, fl)[..|es| - 1] == FoldEntries(es[..|es| - 1], fl);
    }
  }

  // A tree without references to factors.
  predicate Closed(e: Bound)
    decreases e
  {
    match e
    case Literal(_, _) => true
    case Ref(_, _) => false
    case Unary(_, x, _) => Closed(x)
    case Binary(_, l, r, _) => Closed(l) && Closed(r)
    case Cond(c, t, f, _) => Closed(c) && Closed(t) && Closed(f)
    case Call(_, args, _) => forall i | 0 <= i < |args| :: Closed(args[i])
    case ListOf(es, _, _) => forall i | 0 <= i < |es| :: Closed(es[i])
    case MapOf(es, _, _) => forall i | 0 <= i < |es| :: Closed(es[i].value)
  }

  // Folding is complete: a constant tree that evaluates at all becomes the literal of its value.
  lemma {:induction false} FoldComplete(e: Bound, env: Env)
    requires Closed(e) && Eval(e, env).Ok?
    ensures Fold(e, env.fl).Literal? && Fold(e, env.fl).value == Eval(e, env).value
    decreases e, 1
  {
    match e
    case Literal(_, _) =>
    case Ref(_, _) =>
    case Unary(_, x, _) => FoldComplete(x, env);
    case Binary(_, l, r, _) =>
      FoldComplete(l, env);
      if Eval(r, env).Ok? { FoldComplete(r, env); }
    case Cond(c, t, f, _) =>
      FoldComplete(c, env);
      if Truthy(Eval(c, env).value) { FoldComplete(t, env); } else { FoldComplete(f, env); }
    case Call(fn, args, info) =>
      FoldAllComplete(args, env);
      FoldConstantPreserves(Call(fn, FoldAll(args, env.fl), info), env);
      LiteralsMean(FoldAll(args, env.fl), Nowhere(env.fl), Coerced, env, Coerced);
      FoldAllPreserves(args, env);
    case ListOf(es, et, info) => FoldAllComplete(es, env);
      FoldConstantPreserves(ListOf(FoldAll(es, env.fl), et, info), env);
      LiteralsMean(FoldAll(es, env.fl), Nowhere(env.fl), Coerced, env, Coerced);
      FoldAllPreserves(es, env);
    case MapOf(es, vt, info) => FoldEntriesComplete(es, env);
      FoldConstantPreserves(MapOf(FoldEntries(es, env.fl), vt, info), env);
      LiteralEntriesMean(FoldEntries(es, env.fl), Nowhere(env.fl), Coerced, env, Coerced);
      FoldEntriesPreserves(es, env);
  }

  lemma {:induction false} FoldAllComplete(es: seq<Bound>, env: Env)
    requires (forall i | 0 <= i < |es| :: Closed(es[i])) && EvalAllIn(es, env, Coerced).Ok?
    ensures AllLiteral(FoldAll(es, env.fl))
    decreases es, 0
  {
    if es != [] {
      FoldAllComplete(es[..|es| - 1], env);
      FoldComplete(es[|es| - 1], env);
    }
  }

  lemma {:induction false} FoldEntriesComplete(es: seq<Entry>, env: Env)
    requires (forall i | 0 <= i < |es| :: Closed(es[i].value)) && EvalEntriesIn(es, env, Coerced).Ok?
    ensures AllLiteralEntries(FoldEntries(es, env.fl))
    decreases es, 0
  {
    if es != [] {
      FoldEntriesComplete(es[..|es| - 1], env);
      FoldComplete(es[|es| - 1].value, env);
    }
  }
}
