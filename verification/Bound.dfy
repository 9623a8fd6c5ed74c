// The typed tree the binder produces, and its evaluation.
module Bound {
  import opened Values
  import opened Operators
  import opened Schema

  // Result type and field schema recorded at a node.
  datatype Info = Info(typ: ValueType, field: FieldSchema)

  datatype Entry = Entry(key: string, value: Bound)

  datatype Bound =
    | Literal(value: Value, info: Info)
    | Ref(accessor: Accessor, info: Info)
    | Unary(op: UnOp, operand: Bound, info: Info)
    | Binary(bop: BinOp, left: Bound, right: Bound, info: Info)
    | Cond(cond: Bound, thn: Bound, els: Bound, info: Info)
    | Call(fn: Builtin, args: seq<Bound>, info: Info)
    | ListOf(elems: seq<Bound>, elemType: ValueType, info: Info)
    | MapOf(entries: seq<Entry>, valueType: ValueType, info: Info)

  // What && and || return for a right operand they evaluate: the interpreter turns it into a
  // boolean, the code generator leaves it as it is.
  datatype RightOperand = Coerced | Raw

  function RightResult(v: Value, m: RightOperand): Value {
    if m.Coerced? then Bool(Truthy(v)) else v
  }

  function EvalIn(e: Bound, env: Env, m: RightOperand): Result<Value>
    decreases e, 1
  {
    match e
    case Literal(v, _) => Ok(v)
    case Ref(a, _) => Ok(Loaded(a, env.ctx))
    case Unary(op, x, _) =>
      var v :- EvalIn(x, env, m);
      UnaryValue(op, v, env.fl)
    case Binary(And, l, r, _) =>
      var lv :- EvalIn(l, env, m);
      if !Truthy(lv) then Ok(Bool(false)) else
      var rv :- EvalIn(r, env, m);
      Ok(RightResult(rv, m))
    case Binary(Or, l, r, _) =>
      var lv :- EvalIn(l, env, m);
      if Truthy(lv) then Ok(Bool(true)) else
      var rv :- EvalIn(r, env, m);
      Ok(RightResult(rv, m))
    case Binary(Strict(op), l, r, _) =>
      var lv :- EvalIn(l, env, m);
      var rv :- EvalIn(r, env, m);
      BinaryValue(op, lv, rv, env.fl)
    case Cond(c, t, f, _) =>
      var cv :- EvalIn(c, env, m);
      if Truthy(cv) then EvalIn(t, env, m) else EvalIn(f, env, m)
    case Call(fn, args, _) =>
      var vs :- EvalAllIn(args, env, m);
      BuiltinValue(fn, vs, env.fl)
    case ListOf(es, _, _) =>
      var vs :- EvalAllIn(es, env, m);
      Ok(List(vs))
    case MapOf(es, _, _) =>
      var kvs :- EvalEntriesIn(es, env, m);
      Ok(Map(kvs))
  }

  // Left to right, stopping at the first error.
  function EvalAllIn(es: seq<Bound>, env: Env, m: RightOperand): (r: Result<seq<Value>>)
    ensures r.Ok? ==> |r.value| == |es|
    decreases es, 0
  {
    if es == [] then Ok([]) else
    var vs :- EvalAllIn(es[..|es| - 1], env, m);
    var v :- EvalIn(es[|es| - 1], env, m);
    Ok(vs + [v])
  }

  // A later entry replaces an earlier one under the same key.
  function EvalEntriesIn(es: seq<Entry>, env: Env, m: RightOperand): Result<map<string, Value>>
    decreases es, 0
  {
    if es == [] then Ok(map[]) else
    var kvs :- EvalEntriesIn(es[..|es| - 1], env, m);
    var v :- EvalIn(es[|es| - 1].value, env, m);
    Ok(kvs[es[|es| - 1].key := v])
  }

  // The interpreter: Eval of the bound nodes.
  function Eval(e: Bound, env: Env): Result<Value> {
    EvalIn(e, env, Coerced)
  }

  // Every right operand of && and || that evaluation reaches yields a boolean, unless it does not matter:
  // a value that is only tested, by an operator's jump or a condition, may be null instead of false.
  predicate BoolRights(e: Bound, env: Env, tested: bool)
    decreases e, 1
  {
    match e
    case Literal(_, _) => true
    case Ref(_, _) => true
    case Unary(_, x, _) => BoolRights(x, env, false)
    case Binary(And, l, r, _) =>
      BoolRights(l, env, true) &&
      (EvalIn(l, env, Coerced).Ok? && Truthy(EvalIn(l, env, Coerced).value) ==> BoolRight(r, env, tested))
    case Binary(Or, l, r, _) =>
      BoolRights(l, env, true) &&
      (EvalIn(l, env, Coerced).Ok? && !Truthy(EvalIn(l, env, Coerced).value) ==> BoolRight(r, env, tested))
    case Binary(Strict(_), l, r, _) =>
      BoolRights(l, env, false) && (EvalIn(l, env, Coerced).Ok? ==> BoolRights(r, env, false))
    case Cond(c, t, f, _) =>
      BoolRights(c, env, true) &&
      (EvalIn(c, env, Coerced).Ok? ==>
        if Truthy(EvalIn(c, env, Coerced).value) then BoolRights(t, env, tested) else BoolRights(f, env, tested))
    case Call(_, args, _) => AllBoolRights(args, env)
    case ListOf(es, _, _) => AllBoolRights(es, env)
    case MapOf(es, _, _) => EntriesBoolRights(es, env)
  }

  predicate BoolRight(r: Bound, env: Env, tested: bool)
    decreases r, 2
  {
    BoolRights(r, env, tested) && (!tested && EvalIn(r, env, Coerced).Ok? ==> EvalIn(r, env, Coerced).value.Bool?)
  }

  predicate AllBoolRights(es: seq<Bound>, env: Env)
    decreases es, 0
  {
    es == [] ||
    (AllBoolRights(es[..|es| - 1], env) &&
     (EvalAllIn(es[..|es| - 1], env, Coerced).Ok? ==> BoolRights(es[|es| - 1], env, false)))
  }

  predicate EntriesBoolRights(es: seq<Entry>, env: Env)
    decreases es, 0
  {
    es == [] ||
    (EntriesBoolRights(es[..|es| - 1], env) &&
     (EvalEntriesIn(es[..|es| - 1], env, Coerced).Ok? ==> BoolRights(es[|es| - 1].value, env, false)))
  }

  // The same error, or values that a test cannot tell apart.
  predicate SameTest(r: Result<Value>, q: Result<Value>) {
    if r.Ok? && q.Ok? then Truthy(r.value) == Truthy(q.value) else r == q
  }

  predicate SameFor(r: Result<Value>, q: Result<Value>, tested: bool) {
    if tested then SameTest(r, q) else r == q
  }

  // With boolean right operands where they matter, leaving them alone is the same as coercing them: for
  // the value, or at least for a test of it.
  lemma {:induction false} RawAgrees(e: Bound, env: Env, tested: bool)
    requires BoolRights(e, env, tested)
    ensures SameFor(EvalIn(e, env, Raw), Eval(e, env), tested)
    decreases e, 1
  {
    match e
    case Literal(_, _) =>
    case Ref(_, _) =>
    case Unary(_, x, _) => RawAgrees(x, env, false);
    case Binary(_, _, _, _) => RawAgreesBinary(e, env, tested);
    case Cond(c, t, f, _) =>
      RawAgrees(c, env, true);
      if BoolRights(t, env, tested) { RawAgrees(t, env, tested); }
      if BoolRights(f, env, tested) { RawAgrees(f, env, tested); }
    case Call(_, args, _) => RawAgreesAll(args, env);
    case ListOf(es, _, _) => RawAgreesAll(es, env);
    case MapOf(es, _, _) => RawAgreesEntries(es, env);
  }

  lemma {:induction false} RawAgreesBinary(e: Bound, env: Env, tested: bool)
    requires e.Binary? && BoolRights(e, env, tested)
    ensures SameFor(EvalIn(e, env, Raw), Eval(e, env), tested)
    decreases e, 0
  {
    if e.bop.Strict? {
      RawAgrees(e.left, env, false);
      if BoolRights(e.right, env, false) { RawAgrees(e.right, env, false); }
    } else {
      RawAgrees(e.left, env, true);
      if BoolRights(e.right, env, tested) { RawAgrees(e.right, env, tested); }
    }
  }

  lemma {:induction false} RawAgreesAll(es: seq<Bound>, env: Env)
    requires AllBoolRights(es, env)
    ensures EvalAllIn(es, env, Raw) == EvalAllIn(es, env, Coerced)
    decreases es, 0
  {
    if es != [] {
      RawAgreesAll(es[..|es| - 1], env);
      if BoolRights(es[|es| - 1], env, false) { RawAgrees(es[|es| - 1], env, false); }
    }
  }

  lemma {:induction false} RawAgreesEntries(es: seq<Entry>, env: Env)
    requires EntriesBoolRights(es, env)
    ensures EvalEntriesIn(es, env, Raw) == EvalEntriesIn(es, env, Coerced)
    decreases es, 0
  {
    if es != [] {
      RawAgreesEntries(es[..|es| - 1], env);
      if BoolRights(es[|es| - 1].value, env, false) { RawAgrees(es[|es| - 1].value, env, false); }
    }
  }

  // What was enough for the value is enough for a test of it.
  lemma {:induction false} TestedIsWeaker(e: Bound, env: Env)
    requires BoolRights(e, env, false)
    ensures BoolRights(e, env, true)
  {
    match e
    case Binary(And, _, r, _) => if BoolRights(r, env, false) { TestedIsWeaker(r, env); }
    case Binary(Or, _, r, _) => if BoolRights(r, env, false) { TestedIsWeaker(r, env); }
    case Cond(_, t, f, _) =>
      if BoolRights(t, env, false) { TestedIsWeaker(t, env); }
      if BoolRights(f, env, false) { TestedIsWeaker(f, env); }
    case _ =>
  }
}
