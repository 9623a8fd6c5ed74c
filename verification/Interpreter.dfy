// The interpreter that walks the syntax tree, and when it agrees with the bound tree.
module Interpreter {
  import opened Values
  import opened Operators
  import opened Schema
  import opened Ast
  import opened Binder
  import B = Bound

  // A reference without a path looks for the entry "value" of a map and falls back to the whole value.
  function ResolveValue(ref: FactorRef, ctx: Context): Option<Value> {
    if ref.code !in ctx then None
    else if ref.path == [] then
      Some(if ctx[ref.code].Map? && VALUE in ctx[ref.code].entries then ctx[ref.code].entries[VALUE] else ctx[ref.code])
    else Descend(ctx[ref.code], ref.path)
  }

  // The source walks the path in a loop.
  method Resolve(ref: FactorRef, ctx: Context) returns (r: Option<Value>)
    ensures r == ResolveValue(ref, ctx)
  {
    if ref.code !in ctx { return None; }
    var root := ctx[ref.code];
    if ref.path == [] {
      if root.Map? && VALUE in root.entries { return Some(root.entries[VALUE]); }
      return Some(root);
    }
    var current := root;
    for i := 0 to |ref.path|
      invariant Descend(root, ref.path) == Descend(current, ref.path[i..])
    {
      if !current.Map? || ref.path[i] !in current.entries { return None; }
      current := current.entries[ref.path[i]];
      assert ref.path[i..][1..] == ref.path[i + 1..];
    }
    return Some(current);
  }

  function ReferenceValue(ref: FactorRef, ctx: Context): Value {
    match ResolveValue(ref, ctx)
    case Some(v) => v
    case None => Null
  }

  function EvalExpr(e: Expr, env: Env): Result<Value>
    decreases e, 1
  {
    match e
    case LiteralExpr(v, _) => Ok(v)
    case FactorRefExpr(ref) => Ok(ReferenceValue(ref, env.ctx))
    case ConditionalExpr(c, t, f) =>
      var v :- EvalExpr(c, env);
      if Truthy(v) then EvalExpr(t, env) else EvalExpr(f, env)
    case FunctionCallExpr(name, args) =>
      (match BuiltinNamed(name)
       case None => Err(UnknownFunction)
       case Some(fn) =>
         var vs :- EvalExprs(args, env);
         BuiltinValue(fn, vs, env.fl))
    case ListExpr(es) =>
      var vs :- EvalExprs(es, env);
      Ok(List(vs))
    case MapExpr(es) =>
      var kvs :- EvalMapEntries(es, env);
      Ok(Map(kvs))
    case UnaryExpr(op, x) =>
      var v :- EvalExpr(x, env);
      (match UnaryOperator(op)
       case None => Err(UnsupportedOperator)
       case Some(uop) => UnaryValue(uop, v, env.fl))
    case BinaryExpr(Bang, _, _) => Err(UnsupportedOperator)
    case BinaryExpr(Binary(And), l, r) =>
      var lv :- EvalExpr(l, env);
      if !Truthy(lv) then Ok(Bool(false)) else
      var rv :- EvalExpr(r, env);
      Ok(Bool(Truthy(rv)))
    case BinaryExpr(Binary(Or), l, r) =>
      var lv :- EvalExpr(l, env);
      if Truthy(lv) then Ok(Bool(true)) else
      var rv :- EvalExpr(r, env);
      Ok(Bool(Truthy(rv)))
    case BinaryExpr(Binary(Strict(op)), l, r) =>
      var lv :- EvalExpr(l, env);
      var rv :- EvalExpr(r, env);
      BinaryValue(op, lv, rv, env.fl)
  }

  function EvalExprs(es: seq<Expr>, env: Env): (r: Result<seq<Value>>)
    ensures r.Ok? ==> |r.value| == |es|
    decreases es, 0
  {
    if es == [] then Ok([]) else
    var vs :- EvalExprs(es[..|es| - 1], env);
    var v :- EvalExpr(es[|es| - 1], env);
    Ok(vs + [v])
  }

  function EvalMapEntries(es: seq<MapEntry>, env: Env): Result<map<string, Value>>
    decreases es, 0
  {
    if es == [] then Ok(map[]) else
    var kvs :- EvalMapEntries(es[..|es| - 1], env);
    var v :- EvalExpr(es[|es| - 1].value, env);
    Ok(kvs[es[|es| - 1].key := v])
  }

  // When both interpreters see the same value for a reference: a bare reference to a map needs its
  // entry "value"; a leading step "value" needs a map to step into, or null.
  predicate SameReference(ref: FactorRef, ctx: Context) {
    ref.code in ctx ==>
      var root := ctx[ref.code];
      if ref.path == [] then root.Map? ==> VALUE in root.entries
      else ref.path[0] == VALUE ==> root.Map? || root.Null?
  }

  lemma ReferenceExact(ref: FactorRef, reg: Registry, ctx: Context)
    requires BindFactorRef(ref, reg).Ok?
    ensures Loaded(BindFactorRef(ref, reg).value.accessor, ctx) == ReferenceValue(ref, ctx) <==> SameReference(ref, ctx)
  {
    if ref.code in ctx {
      var root := ctx[ref.code];
      if ref.path == [] {
        assert [VALUE][1..] == [];
        if root.Map? && VALUE in root.entries { assert Descend(root.entries[VALUE], []) == Some(root.entries[VALUE]); }
      } else if ref.path[0] == VALUE && !root.Map? {
        assert Descend(root, ref.path) == None;
      }
    }
  }

  // The whole factor as the container of `get`: the syntax-tree interpreter still prefers its entry "value".
  predicate SameRoot(code: string, ctx: Context) {
    code in ctx ==> !(ctx[code].Map? && VALUE in ctx[code].entries)
  }

  lemma RootExact(code: string, ctx: Context)
    ensures Loaded(Accessor(code, []), ctx) == ReferenceValue(FactorRef(code, []), ctx) <==> SameRoot(code, ctx)
  {
    if code in ctx && ctx[code].Map? && VALUE in ctx[code].entries {
      SmallerThanItsMap(ctx[code], VALUE);
    }
  }

  // No value is its own entry.
  lemma SmallerThanItsMap(v: Value, k: string)
    requires v.Map? && k in v.entries
    ensures v.entries[k] != v
  {
    assert v.entries[k] < v;
  }

  // Whether a reference stands for a whole factor with several fields (as the container of `get`).
  predicate WholeFactor(e: Expr, reg: Registry) {
    e.FactorRefExpr? && e.ref.path == [] && e.ref.code in reg && !SingleValue(reg[e.ref.code])
  }

  // Every reference that evaluation reaches means the same to both interpreters.
  predicate ReferencesAgree(e: Expr, reg: Registry, env: Env)
    decreases e, 1
  {
    match e
    case LiteralExpr(_, _) => true
    case FactorRefExpr(ref) => SameReference(ref, env.ctx)
    case ConditionalExpr(c, t, f) =>
      ReferencesAgree(c, reg, env) &&
      (EvalExpr(c, env).Ok? ==>
        if Truthy(EvalExpr(c, env).value) then ReferencesAgree(t, reg, env) else ReferencesAgree(f, reg, env))
    case FunctionCallExpr(name, args) =>
      if name == "get" && |args| == 2 && WholeFactor(args[0], reg) then
        SameRoot(args[0].ref.code, env.ctx) && ReferencesAgree(args[1], reg, env)
      else AllReferencesAgree(args, reg, env)
    case ListExpr(es) => AllReferencesAgree(es, reg, env)
    case MapExpr(es) => EntryReferencesAgree(es, reg, env)
    case UnaryExpr(_, x) => ReferencesAgree(x, reg, env)
    case BinaryExpr(Binary(And), l, r) =>
      ReferencesAgree(l, reg, env) &&
      (EvalExpr(l, env).Ok? && Truthy(EvalExpr(l, env).value) ==> ReferencesAgree(r, reg, env))
    case BinaryExpr(Binary(Or), l, r) =>
      ReferencesAgree(l, reg, env) &&
      (EvalExpr(l, env).Ok? && !Truthy(EvalExpr(l, env).value) ==> ReferencesAgree(r, reg, env))
    case BinaryExpr(_, l, r) =>
      ReferencesAgree(l, reg, env) && (EvalExpr(l, env).Ok? ==> ReferencesAgree(r, reg, env))
  }

  predicate AllReferencesAgree(es: seq<Expr>, reg: Registry, env: Env)
    decreases es, 0
  {
    es == [] ||
    (AllReferencesAgree(es[..|es| - 1], reg, env) &&
     (EvalExprs(es[..|es| - 1], env).Ok? ==> ReferencesAgree(es[|es| - 1], reg, env)))
  }

  predicate EntryReferencesAgree(es: seq<MapEntry>, reg: Registry, env: Env)
    decreases es, 0
  {
    es == [] ||
    (EntryReferencesAgree(es[..|es| - 1], reg, env) &&
     (EvalMapEntries(es[..|es| - 1], env).Ok? ==> ReferencesAgree(es[|es| - 1].value, reg, env)))
  }

  // Whenever the reached references agree, walking the syntax tree and evaluating the bound tree give the same
  // value or the same error.
  lemma {:induction false} BoundAgrees(e: Expr, reg: Registry, env: Env)
    requires Bind(e, reg).Ok? && ReferencesAgree(e, reg, env)
    ensures B.Eval(Bind(e, reg).value, env) == EvalExpr(e, env)
    decreases e, 2
  {
    match e
    case LiteralExpr(_, _) =>
    case FactorRefExpr(ref) => ReferenceExact(ref, reg, env.ctx);
    case ConditionalExpr(_, _, _) => BoundAgreesConditional(e, reg, env);
    case FunctionCallExpr(name, _) =>
      if name == "get" { BoundAgreesGet(e, reg, env); } else { BoundAgreesCall(e, reg, env); }
    case ListExpr(es) => BoundAgreesElements(es, reg, env);
    case MapExpr(es) => BoundAgreesEntries(es, reg, env);
    case UnaryExpr(_, _) => BoundAgreesUnary(e, reg, env);
    case BinaryExpr(_, _, _) => BoundAgreesBinary(e, reg, env);
  }

  lemma {:induction false} BoundAgreesConditional(e: Expr, reg: Registry, env: Env)
    requires e.ConditionalExpr? && Bind(e, reg).Ok? && ReferencesAgree(e, reg, env)
    ensures B.Eval(Bind(e, reg).value, env) == EvalExpr(e, env)
    decreases e, 1
  {
    BoundAgrees(e.cond, reg, env);
    if EvalExpr(e.cond, env).Ok? {
      if Truthy(EvalExpr(e.cond, env).value) { BoundAgrees(e.thn, reg, env); } else { BoundAgrees(e.els, reg, env); }
    }
  }

  // Calls agree if their arguments do.
  lemma CallAgrees(b: B.Bound, e: Expr, env: Env)
    requires b.Call? && e.FunctionCallExpr? && BuiltinNamed(e.name) == Some(b.fn)
    requires B.EvalAllIn(b.args, env, B.Coerced) == EvalExprs(e.args, env)
    ensures B.Eval(b, env) == EvalExpr(e, env)
  {
    if EvalExprs(e.args, env).Ok? {
      var vs := EvalExprs(e.args, env).value;
      assert B.EvalIn(b, env, B.Coerced) == BuiltinValue(b.fn, vs, env.fl);
      assert EvalExpr(e, env) == BuiltinValue(b.fn, vs, env.fl);
    }
  }

  lemma CallIsBound(name: string, args: seq<B.Bound>)
    requires BindCall(name, args).Ok?
    ensures BindCall(name, args).value.Call? && BindCall(name, args).value.args == args
    ensures BuiltinNamed(name) == Some(BindCall(name, args).value.fn)
  {
  }

  lemma {:induction false} BoundAgreesCall(e: Expr, reg: Registry, env: Env)
    requires e.FunctionCallExpr? && e.name != "get" && Bind(e, reg).Ok? && ReferencesAgree(e, reg, env)
    ensures B.Eval(Bind(e, reg).value, env) == EvalExpr(e, env)
    decreases e, 1
  {
    BoundAgreesAll(e.args, reg, env);
    CallIsBound(e.name, BindAll(e.args, reg).value);
    CallAgrees(Bind(e, reg).value, e, env);
  }

  lemma {:induction false} BoundAgreesUnary(e: Expr, reg: Registry, env: Env)
    requires e.UnaryExpr? && Bind(e, reg).Ok? && ReferencesAgree(e, reg, env)
    ensures B.Eval(Bind(e, reg).value, env) == EvalExpr(e, env)
    decreases e, 1
  {
    BoundAgrees(e.operand, reg, env);
  }

  lemma {:induction false} BoundAgreesBinary(e: Expr, reg: Registry, env: Env)
    requires e.BinaryExpr? && Bind(e, reg).Ok? && ReferencesAgree(e, reg, env)
    ensures B.Eval(Bind(e, reg).value, env) == EvalExpr(e, env)
    decreases e, 1
  {
    BoundAgrees(e.left, reg, env);
    if ReferencesAgree(e.right, reg, env) { BoundAgrees(e.right, reg, env); }
  }

  lemma SequenceStep(bs: seq<B.Bound>, b: B.Bound, es: seq<Expr>, env: Env)
    requires es != []
    ensures B.EvalAllIn(bs, env, B.Coerced) == EvalExprs(es[..|es| - 1], env) &&
            (EvalExprs(es[..|es| - 1], env).Ok? ==> B.Eval(b, env) == EvalExpr(es[|es| - 1], env)) ==>
              B.EvalAllIn(bs + [b], env, B.Coerced) == EvalExprs(es, env)
  {
    assert (bs + [b])[..|bs|] == bs;
  }

  lemma {:induction false} BoundAgreesGet(e: Expr, reg: Registry, env: Env)
    requires e.FunctionCallExpr? && e.name == "get" && Bind(e, reg).Ok? && ReferencesAgree(e, reg, env)
    ensures B.Eval(Bind(e, reg).value, env) == EvalExpr(e, env)
    decreases e, 1
  {
    var c := BindGetContainer(e.args[0], Bind(e.args[0], reg), reg).value;
    var k := Bind(e.args[1], reg).value;
    BoundAgreesContainer(e, reg, env);
    if EvalExpr(e.args[0], env).Ok? { BoundAgrees(e.args[1], reg, env); }
    PairAgrees(c, k, e.args, env);
    CallAgrees(Bind(e, reg).value, e, env);
  }

  lemma {:induction false} BoundAgreesContainer(e: Expr, reg: Registry, env: Env)
    requires e.FunctionCallExpr? && e.name == "get" && Bind(e, reg).Ok? && ReferencesAgree(e, reg, env)
    ensures |e.args| == 2
    ensures var c := BindGetContainer(e.args[0], Bind(e.args[0], reg), reg);
            c.Ok? && B.Eval(c.value, env) == EvalExpr(e.args[0], env)
    ensures EvalExpr(e.args[0], env).Ok? ==> ReferencesAgree(e.args[1], reg, env)
    decreases e, 0
  {
    if WholeFactor(e.args[0], reg) {
      RootExact(e.args[0].ref.code, env.ctx);
      assert e.args[0].ref == FactorRef(e.args[0].ref.code, []);
    } else {
      PairReached(e.args, reg, env);
      BoundAgrees(e.args[0], reg, env);
    }
  }

  lemma PairReached(args: seq<Expr>, reg: Registry, env: Env)
    requires |args| == 2
    ensures AllReferencesAgree(args, reg, env) <==>
            ReferencesAgree(args[0], reg, env) && (EvalExpr(args[0], env).Ok? ==> ReferencesAgree(args[1], reg, env))
  {
    assert args[..1][..0] == [] && args[..1][0] == args[0] && EvalExprs(args[..1][..0], env) == Ok([]);
    assert EvalExprs(args[..1], env).Ok? <==> EvalExpr(args[0], env).Ok?;
    assert AllReferencesAgree(args[..1], reg, env) <==> ReferencesAgree(args[0], reg, env);
  }

  lemma PairAgrees(c: B.Bound, k: B.Bound, args: seq<Expr>, env: Env)
    requires |args| == 2 && B.Eval(c, env) == EvalExpr(args[0], env)
    requires EvalExpr(args[0], env).Ok? ==> B.Eval(k, env) == EvalExpr(args[1], env)
    ensures B.EvalAllIn([c, k], env, B.Coerced) == EvalExprs(args, env)
  {
    assert [c, k][..1] == [c] && [c][..0] == [] && args[..1][..0] == [] && args[..1][0] == args[0];
    assert B.EvalAllIn([c][..0], env, B.Coerced) == Ok([]) && EvalExprs(args[..1][..0], env) == Ok([]);
    assert B.EvalAllIn([c], env, B.Coerced) == EvalExprs(args[..1], env);
  }

  lemma {:induction false} BoundAgreesAll(es: seq<Expr>, reg: Registry, env: Env)
    requires BindAll(es, reg).Ok? && AllReferencesAgree(es, reg, env)
    ensures B.EvalAllIn(BindAll(es, reg).value, env, B.Coerced) == EvalExprs(es, env)
    decreases es, 0
  {
    if es != [] {
      SequenceStep(BindAll(es[..|es| - 1], reg).value, Bind(es[|es| - 1], reg).value, es, env);
      BoundAgreesAll(es[..|es| - 1], reg, env);
      if EvalExprs(es[..|es| - 1], env).Ok? { BoundAgrees(es[|es| - 1], reg, env); }
    }
  }

  lemma {:induction false} BoundAgreesElements(es: seq<Expr>, reg: Registry, env: Env)
    requires BindElements(es, reg).Ok? && AllReferencesAgree(es, reg, env)
    ensures B.EvalAllIn(BindElements(es, reg).value.0, env, B.Coerced) == EvalExprs(es, env)
    decreases es, 0
  {
    if es != [] {
      SequenceStep(BindElements(es[..|es| - 1], reg).value.0, Bind(es[|es| - 1], reg).value, es, env);
      BoundAgreesElements(es[..|es| - 1], reg, env);
      if EvalExprs(es[..|es| - 1], env).Ok? { BoundAgrees(es[|es| - 1], reg, env); }
    }
  }

  lemma {:induction false} BoundAgreesEntries(es: seq<MapEntry>, reg: Registry, env: Env)
    requires BindEntries(es, reg).Ok? && EntryReferencesAgree(es, reg, env)
    ensures B.EvalEntriesIn(BindEntries(es, reg).value.0, env, B.Coerced) == EvalMapEntries(es, env)
    decreases es, 0
  {
    if es != [] {
      BoundAgreesEntries(es[..|es| - 1], reg, env);
      if EvalMapEntries(es[..|es| - 1], env).Ok? { BoundAgrees(es[|es| - 1].value, reg, env); }
      assert BindEntries(es, reg).value.0[..|es| - 1] == BindEntries(es[..|es| - 1], reg).value.0;
    }
  }
}
