// What the static types promise about values, and that the interpreter keeps the promise.
module Typing {
  import opened Values
  import opened Operators
  import opened Schema
  import opened Binder
  import opened FieldRules
  import Ast
  import B = Bound

  // A value a field may hold. Null belongs to every type; integer types hold both Go integer kinds
  // (integer arithmetic yields int64), DOUBLE holds any number. The element types of lists count only when
  // the typing is deep: nothing takes an element out of a list, so most promises hold either way.
  predicate HasField(v: Value, f: FieldSchema, deep: bool)
    decreases v
  {
    v.Null? ||
    match f.typ
    case StringT => v.Str?
    case IntT | LongT => v.Int? || v.Long?
    case DoubleT => IsNumber(v)
    case BoolT => v.Bool?
    case ListT =>
      v.List? && (deep && f.elem.Some? ==> forall i | 0 <= i < |v.items| :: HasField(v.items[i], f.elem.value, deep))
    case MapT => v.Map? && (f.elem.Some? ==> forall k | k in v.entries :: HasField(v.entries[k], f.elem.value, deep))
    case ObjectT => v.Map? && forall k | k in v.entries && k in f.fields :: HasField(v.entries[k], f.fields[k], deep)
    case NullT | Unset => false
  }

  predicate HasType(v: Value, t: ValueType) {
    HasField(v, Scalar(t), true)
  }

  // What a factor may have returned: null, an object of its schema, or, when the schema is the single
  // field "value", that value itself unless it is a map.
  predicate RootConforms(v: Value, schema: Fields, deep: bool) {
    HasField(v, ObjectOf(schema), deep) || (SingleValue(schema) && !v.Map? && HasField(v, schema[VALUE], deep))
  }

  ghost predicate Conforms(ctx: Context, reg: Registry, deep: bool) {
    forall code | code in ctx && code in reg :: RootConforms(ctx[code], reg[code], deep)
  }

  // Every value of f's type is a value of g's type.
  predicate Subfield(f: FieldSchema, g: FieldSchema, deep: bool)
    decreases f, g
  {
    f.typ.NullT? || f.typ.Unset? ||
    match g.typ
    case StringT => f.typ.StringT?
    case IntT | LongT => f.typ.IntT? || f.typ.LongT?
    case DoubleT => IsNumeric(f.typ)
    case BoolT => f.typ.BoolT?
    case ListT => f.typ.ListT? && (deep && g.elem.Some? ==> f.elem.Some? && Subfield(f.elem.value, g.elem.value, deep))
    case MapT =>
      if g.elem.None? then f.typ.MapT? || f.typ.ObjectT?
      else f.typ.MapT? && f.elem.Some? && Subfield(f.elem.value, g.elem.value, deep)
    case ObjectT =>
      if f.typ.ObjectT? then forall k | k in g.fields :: k in f.fields && Subfield(f.fields[k], g.fields[k], deep)
      else f.typ.MapT? && forall k | k in g.fields :: f.elem.Some? && Subfield(f.elem.value, g.fields[k], deep)
    case NullT | Unset => false
  }

  lemma {:induction false} SubfieldSound(v: Value, f: FieldSchema, g: FieldSchema, deep: bool)
    requires Subfield(f, g, deep) && HasField(v, f, deep)
    ensures HasField(v, g, deep)
    decreases v
  {
    if v.List? && g.typ.ListT? && f.typ.ListT? && deep && g.elem.Some? {
      forall i | 0 <= i < |v.items| ensures HasField(v.items[i], g.elem.value, deep) {
        SubfieldSound(v.items[i], f.elem.value, g.elem.value, deep);
      }
    }
    if v.Map? && g.typ.MapT? && g.elem.Some? && f.typ.MapT? {
      forall k | k in v.entries ensures HasField(v.entries[k], g.elem.value, deep) {
        SubfieldSound(v.entries[k], f.elem.value, g.elem.value, deep);
      }
    }
    if v.Map? && g.typ.ObjectT? {
      forall k | k in v.entries && k in g.fields ensures HasField(v.entries[k], g.fields[k], deep) {
        if f.typ.ObjectT? {
          SubfieldSound(v.entries[k], f.fields[k], g.fields[k], deep);
        } else if f.typ.MapT? {
          SubfieldSound(v.entries[k], f.elem.value, g.fields[k], deep);
        }
      }
    }
  }

  // A value of every type but the null types, and a value outside every type.
  function Sample(t: ValueType): Value {
    match t
    case StringT => Str("")
    case IntT | LongT => Int(0)
    case DoubleT => Double(Float64(0))
    case BoolT => Bool(true)
    case ListT => List([])
    case MapT | ObjectT => Map(map[])
    case NullT | Unset => Null
  }

  function Outsider(g: FieldSchema): (v: Value)
    ensures forall deep :: !HasField(v, g, deep)
  {
    if g.typ.BoolT? then Str("") else Bool(true)
  }

  // Subfield misses nothing: where it fails, some value of f's type is none of g's.
  lemma {:induction false} SubfieldComplete(f: FieldSchema, g: FieldSchema, deep: bool) returns (v: Value)
    requires !Subfield(f, g, deep)
    ensures HasField(v, f, deep) && !HasField(v, g, deep)
    decreases f, g
  {
    v := Sample(f.typ);
    if g.typ.ListT? && f.typ.ListT? {
      var w := Outsider(g.elem.value);
      if f.elem.Some? { w := SubfieldComplete(f.elem.value, g.elem.value, deep); }
      v := List([w]);
      assert v.items[0] == w;
    } else if g.typ.MapT? && f.typ.MapT? && f.elem.Some? {
      var w := SubfieldComplete(f.elem.value, g.elem.value, deep);
      v := Map(map["k" := w]);
      assert v.entries["k"] == w;
    } else if g.typ.MapT? && (f.typ.MapT? || f.typ.ObjectT?) {
      v := ObjectOutside(f, g, deep);
    } else if g.typ.ObjectT? && (f.typ.ObjectT? || f.typ.MapT?) {
      v := SubfieldCompleteObject(f, g, deep);
    }
  }

  // An entry that f leaves free and g does not.
  lemma ObjectOutside(f: FieldSchema, g: FieldSchema, deep: bool) returns (v: Value)
    requires g.typ.MapT? && g.elem.Some? && ((f.typ.MapT? && f.elem.None?) || f.typ.ObjectT?)
    ensures HasField(v, f, deep) && !HasField(v, g, deep)
  {
    var k := FreshKey(f.fields.Keys, "k");
    v := Map(map[k := Outsider(g.elem.value)]);
    assert v.entries[k] == Outsider(g.elem.value);
  }

  lemma FreshKey(keys: set<string>, start: string) returns (k: string)
    ensures k !in keys
  {
    k := start;
    var rest := keys;
    while k in keys
      invariant forall x | x in keys && x !in rest :: |x| < |k|
      invariant rest <= keys
      decreases |rest|
    {
      rest := rest - {k};
      k := k + "k";
    }
  }

  lemma {:induction false} SubfieldCompleteObject(f: FieldSchema, g: FieldSchema, deep: bool) returns (v: Value)
    requires !Subfield(f, g, deep) && g.typ.ObjectT? && (f.typ.ObjectT? || f.typ.MapT?)
    ensures HasField(v, f, deep) && !HasField(v, g, deep)
    decreases f, g, 0
  {
    var k, w: Value;
    if f.typ.ObjectT? {
      k :| k in g.fields && !(k in f.fields && Subfield(f.fields[k], g.fields[k], deep));
      if k in f.fields { w := SubfieldComplete(f.fields[k], g.fields[k], deep); } else { w := Outsider(g.fields[k]); }
    } else {
      k :| k in g.fields && !(f.elem.Some? && Subfield(f.elem.value, g.fields[k], deep));
      if f.elem.Some? { w := SubfieldComplete(f.elem.value, g.fields[k], deep); } else { w := Outsider(g.fields[k]); }
    }
    v := Map(map[k := w]);
    assert v.entries[k] == w;
  }

  // What binding guarantees about a tree, given what the context holds.
  predicate WellTyped(b: B.Bound, ctx: Context, deep: bool)
    decreases b
  {
    b.info.field.typ == b.info.typ &&
    match b
    case Literal(v, info) => HasField(v, info.field, deep)
    case Ref(a, info) => HasField(Loaded(a, ctx), info.field, deep)
    case Unary(op, x, info) =>
      WellTyped(x, ctx, deep) && (if op.Not? then x.info.typ.BoolT? else IsNumeric(x.info.typ)) &&
      info == ScalarInfo(x.info.typ)
    case Binary(op, l, r, info) =>
      WellTyped(l, ctx, deep) && WellTyped(r, ctx, deep) &&
      BinaryType(op, l.info.typ, r.info.typ) == Ok(info.typ) && info == ScalarInfo(info.typ)
    case Cond(c, t, f, info) =>
      WellTyped(c, ctx, deep) && WellTyped(t, ctx, deep) && WellTyped(f, ctx, deep) && c.info.typ.BoolT?
    case Call(fn, args, info) =>
      (forall i | 0 <= i < |args| :: WellTyped(args[i], ctx, deep)) && |args| >= MinArgs(fn) &&
      if fn.Get? then args[1].info.typ.StringT? && GetResultField(args[0].info.field, args[1]) == Ok(info.field)
      else info == ScalarInfo(BoolT)
    case ListOf(es, et, info) =>
      (forall i | 0 <= i < |es| :: WellTyped(es[i], ctx, deep) && Subfield(Scalar(es[i].info.typ), Scalar(et), deep)) &&
      info == ContainerInfo(ListT, et)
    case MapOf(es, vt, info) =>
      (forall i | 0 <= i < |es| ::
         WellTyped(es[i].value, ctx, deep) && Subfield(Scalar(es[i].value.info.typ), Scalar(vt), deep)) &&
      info == ContainerInfo(MapT, vt)
  }

  // Every conditional's merged field covers both of its arms.
  predicate JoinsSound(b: B.Bound, deep: bool)
    decreases b
  {
    match b
    case Literal(_, _) => true
    case Ref(_, _) => true
    case Unary(_, x, _) => JoinsSound(x, deep)
    case Binary(_, l, r, _) => JoinsSound(l, deep) && JoinsSound(r, deep)
    case Cond(c, t, f, info) =>
      JoinsSound(c, deep) && JoinsSound(t, deep) && JoinsSound(f, deep) &&
      Subfield(t.info.field, info.field, deep) && Subfield(f.info.field, info.field, deep)
    case Call(_, args, _) => forall i | 0 <= i < |args| :: JoinsSound(args[i], deep)
    case ListOf(es, _, _) => forall i | 0 <= i < |es| :: JoinsSound(es[i], deep)
    case MapOf(es, _, _) => forall i | 0 <= i < |es| :: JoinsSound(es[i].value, deep)
  }

  // The errors a well-typed tree can report: only a division and a `get` can fail.
  predicate MayFail(b: B.Bound, c: ErrorCode)
    decreases b
  {
    match b
    case Literal(_, _) => false
    case Ref(_, _) => false
    case Unary(_, x, _) => MayFail(x, c)
    case Binary(op, l, r, _) => MayFail(l, c) || MayFail(r, c) || (op == Strict(Div) && c.DivisionByZero?)
    case Cond(b0, t, f, _) => MayFail(b0, c) || MayFail(t, c) || MayFail(f, c)
    case Call(fn, args, _) => (exists i | 0 <= i < |args| :: MayFail(args[i], c)) || (fn.Get? && c.TypeMismatch?)
    case ListOf(es, _, _) => exists i | 0 <= i < |es| :: MayFail(es[i], c)
    case MapOf(es, _, _) => exists i | 0 <= i < |es| :: MayFail(es[i].value, c)
  }

  ghost predicate Safe(r: Result<Value>, b: B.Bound, deep: bool) {
    if r.Ok? then HasField(r.value, b.info.field, deep) else MayFail(b, r.code)
  }

  lemma UnarySafe(op: UnOp, v: Value, t: ValueType, fl: FloatOps)
    requires HasType(v, t) && if op.Not? then t.BoolT? else IsNumeric(t)
    ensures UnaryValue(op, v, fl).Ok? && HasType(UnaryValue(op, v, fl).value, t)
  {
  }

  lemma BinarySafe(op: StrictOp, v: Value, w: Value, t: ValueType, u: ValueType, fl: FloatOps)
    requires HasType(v, t) && HasType(w, u) && BinaryType(Strict(op), t, u).Ok?
    ensures var r := BinaryValue(op, v, w, fl);
            if r.Ok? then HasType(r.value, BinaryType(Strict(op), t, u).value) else op.Div? && r.code.DivisionByZero?
  {
  }

  // On well-typed operands `get` fails exactly if the container or the key is null.
  lemma GetSafe(container: Value, key: Value, f: FieldSchema, keyExpr: B.Bound, field: FieldSchema, deep: bool)
    requires HasField(container, f, deep) && HasType(key, StringT) && GetResultField(f, keyExpr) == Ok(field)
    requires keyExpr.Literal? ==> key == keyExpr.value
    ensures var r := GetEntry(container, key);
            if container.Null? || key.Null? then r == Err(TypeMismatch) else r.Ok? && HasField(r.value, field, deep)
  {
  }

  // One node at a time: if what is evaluated in place of the operands is safe for them, the node is safe.

  lemma UnaryStep(b: B.Bound, x: B.Bound, env: Env, m: B.RightOperand, deep: bool)
    requires b.Unary? && WellTyped(b, env.ctx, deep) && Safe(B.EvalIn(x, env, m), b.operand, deep)
    ensures Safe(B.EvalIn(B.Unary(b.op, x, b.info), env, m), b, deep)
  {
    var r := B.EvalIn(x, env, m);
    if r.Ok? { UnarySafe(b.op, r.value, b.operand.info.typ, env.fl); }
  }

  lemma BinaryStep(b: B.Bound, l: B.Bound, r: B.Bound, env: Env, m: B.RightOperand, deep: bool)
    requires b.Binary? && WellTyped(b, env.ctx, deep)
    requires Safe(B.EvalIn(l, env, m), b.left, deep) && Safe(B.EvalIn(r, env, m), b.right, deep)
    ensures Safe(B.EvalIn(B.Binary(b.bop, l, r, b.info), env, m), b, deep)
  {
    var lv, rv := B.EvalIn(l, env, m), B.EvalIn(r, env, m);
    if b.bop.Strict? && lv.Ok? && rv.Ok? {
      BinarySafe(b.bop.op, lv.value, rv.value, b.left.info.typ, b.right.info.typ, env.fl);
    }
  }

  lemma ArmSafe(b: B.Bound, arm: B.Bound, r: Result<Value>, deep: bool)
    requires b.Cond? && (arm == b.thn || arm == b.els) && Subfield(arm.info.field, b.info.field, deep) &&
             Safe(r, arm, deep)
    ensures Safe(r, b, deep)
  {
    if r.Ok? { SubfieldSound(r.value, arm.info.field, b.info.field, deep); }
  }

  lemma CondMeans(c: B.Bound, t: B.Bound, f: B.Bound, info: B.Info, env: Env, m: B.RightOperand)
    ensures var cv, r := B.EvalIn(c, env, m), B.EvalIn(B.Cond(c, t, f, info), env, m);
            if cv.Err? then r == Err(cv.code)
            else r == if Truthy(cv.value) then B.EvalIn(t, env, m) else B.EvalIn(f, env, m)
  {
  }

  lemma CondStep(b: B.Bound, c: B.Bound, t: B.Bound, f: B.Bound, env: Env, m: B.RightOperand, deep: bool)
    requires b.Cond? && Safe(B.EvalIn(c, env, m), b.cond, deep)
    requires Subfield(b.thn.info.field, b.info.field, deep) && Subfield(b.els.info.field, b.info.field, deep)
    requires Safe(B.EvalIn(t, env, m), b.thn, deep) && Safe(B.EvalIn(f, env, m), b.els, deep)
    ensures Safe(B.EvalIn(B.Cond(c, t, f, b.info), env, m), b, deep)
  {
    CondMeans(c, t, f, b.info, env, m);
    ArmSafe(b, b.thn, B.EvalIn(t, env, m), deep);
    ArmSafe(b, b.els, B.EvalIn(f, env, m), deep);
  }

  lemma CallStep(b: B.Bound, args: seq<B.Bound>, env: Env, m: B.RightOperand, deep: bool)
    requires b.Call? && WellTyped(b, env.ctx, deep) && |args| == |b.args| &&
             SafeAll(B.EvalAllIn(args, env, m), b.args, deep)
    requires forall i | 0 <= i < |args| && b.args[i].Literal? :: args[i] == b.args[i]
    ensures Safe(B.EvalIn(B.Call(b.fn, args, b.info), env, m), b, deep)
  {
    var rs := B.EvalAllIn(args, env, m);
    if rs.Ok? && b.fn.Get? {
      KeyLiteral(args, env, m);
      GetSafe(rs.value[0], rs.value[1], b.args[0].info.field, b.args[1], b.info.field, deep);
    }
  }

  lemma ListStep(b: B.Bound, es: seq<B.Bound>, env: Env, m: B.RightOperand, deep: bool)
    requires b.ListOf? && WellTyped(b, env.ctx, deep) && |es| == |b.elems| &&
             SafeAll(B.EvalAllIn(es, env, m), b.elems, deep)
    ensures Safe(B.EvalIn(B.ListOf(es, b.elemType, b.info), env, m), b, deep)
  {
    var rs := B.EvalAllIn(es, env, m);
    if rs.Ok? { ElementsTyped(rs.value, b.elems, b.elemType, deep); }
  }

  lemma MapStep(b: B.Bound, es: seq<B.Entry>, env: Env, m: B.RightOperand, deep: bool)
    requires b.MapOf? && WellTyped(b, env.ctx, deep) && SafeEntries(B.EvalEntriesIn(es, env, m), b.entries, b.valueType)
    ensures Safe(B.EvalIn(B.MapOf(es, b.valueType, b.info), env, m), b, deep)
  {
  }

  lemma ElementsTyped(vs: seq<Value>, es: seq<B.Bound>, et: ValueType, deep: bool)
    requires |vs| == |es| && forall i | 0 <= i < |es| ::
      HasField(vs[i], es[i].info.field, deep) && es[i].info.field.typ == es[i].info.typ &&
      Subfield(Scalar(es[i].info.typ), Scalar(et), deep)
    ensures HasField(List(vs), ContainerInfo(ListT, et).field, deep)
  {
    forall i | 0 <= i < |vs| ensures HasField(vs[i], Scalar(et), deep) {
      FieldHasItsType(vs[i], es[i].info.field, deep);
      SubfieldSound(vs[i], Scalar(es[i].info.typ), Scalar(et), deep);
    }
  }

  // A literal argument evaluates to itself.
  lemma {:induction false} KeyLiteral(es: seq<B.Bound>, env: Env, m: B.RightOperand)
    requires B.EvalAllIn(es, env, m).Ok?
    ensures forall i | 0 <= i < |es| && es[i].Literal? :: B.EvalAllIn(es, env, m).value[i] == es[i].value
  {
    if es != [] { KeyLiteral(es[..|es| - 1], env, m); }
  }

  ghost predicate SafeAll(r: Result<seq<Value>>, es: seq<B.Bound>, deep: bool)
    requires r.Ok? ==> |r.value| == |es|
  {
    if r.Ok? then forall i | 0 <= i < |es| :: HasField(r.value[i], es[i].info.field, deep)
    else exists i | 0 <= i < |es| :: MayFail(es[i], r.code)
  }

  lemma AllStep(es: seq<B.Bound>, xs: seq<B.Bound>, env: Env, m: B.RightOperand, deep: bool)
    requires es != [] && |xs| == |es| && SafeAll(B.EvalAllIn(xs[..|xs| - 1], env, m), es[..|es| - 1], deep)
    requires Safe(B.EvalIn(xs[|xs| - 1], env, m), es[|es| - 1], deep)
    ensures SafeAll(B.EvalAllIn(xs, env, m), es, deep)
  {
    var n := |es| - 1;
    var ri, r := B.EvalAllIn(xs[..n], env, m), B.EvalIn(xs[n], env, m);
    if ri.Err? {
      var i :| 0 <= i < n && MayFail(es[..n][i], ri.code);
      assert MayFail(es[i], ri.code);
    } else if r.Err? {
      assert MayFail(es[n], r.code);
    }
  }

  ghost predicate SafeEntries(r: Result<map<string, Value>>, es: seq<B.Entry>, vt: ValueType) {
    if r.Ok? then forall k | k in r.value :: HasType(r.value[k], vt)
    else exists i | 0 <= i < |es| :: MayFail(es[i].value, r.code)
  }

  lemma EntriesStep(es: seq<B.Entry>, xs: seq<B.Entry>, vt: ValueType, env: Env, m: B.RightOperand, deep: bool)
    requires es != [] && |xs| == |es| && SafeEntries(B.EvalEntriesIn(xs[..|xs| - 1], env, m), es[..|es| - 1], vt)
    requires var x := es[|es| - 1].value;
             Safe(B.EvalIn(xs[|xs| - 1].value, env, m), x, deep) && x.info.field.typ == x.info.typ &&
             Subfield(Scalar(x.info.typ), Scalar(vt), deep)
    ensures SafeEntries(B.EvalEntriesIn(xs, env, m), es, vt)
  {
    var n := |es| - 1;
    var ri, r := B.EvalEntriesIn(xs[..n], env, m), B.EvalIn(xs[n].value, env, m);
    if ri.Err? {
      var i :| 0 <= i < n && MayFail(es[..n][i].value, ri.code);
      assert MayFail(es[i].value, ri.code);
    } else if r.Err? {
      assert MayFail(es[n].value, r.code);
    } else {
      FieldHasItsType(r.value, es[n].value.info.field, deep);
      SubfieldSound(r.value, Scalar(es[n].value.info.typ), Scalar(vt), deep);
    }
  }

  // Type soundness: in a conforming context a bound tree whose conditionals join soundly evaluates to
  // null or a value of its type, and fails only in a division by zero or in a `get`, whether or not right
  // operands of && and || are turned into booleans.
  lemma {:induction false} Soundness(b: B.Bound, env: Env, m: B.RightOperand, deep: bool)
    requires WellTyped(b, env.ctx, deep) && JoinsSound(b, deep)
    ensures Safe(B.EvalIn(b, env, m), b, deep)
    decreases b, 1
  {
    match b
    case Literal(_, _) =>
    case Ref(_, _) =>
    case Unary(_, x, _) =>
      Soundness(x, env, m, deep);
      UnaryStep(b, x, env, m, deep);
    case Binary(_, l, r, _) =>
      Soundness(l, env, m, deep);
      Soundness(r, env, m, deep);
      BinaryStep(b, l, r, env, m, deep);
    case Cond(c, t, f, _) =>
      Soundness(c, env, m, deep);
      Soundness(t, env, m, deep);
      Soundness(f, env, m, deep);
      CondStep(b, c, t, f, env, m, deep);
    case Call(_, args, _) =>
      SoundnessAll(b, args, env, m, deep);
      CallStep(b, args, env, m, deep);
    case ListOf(es, _, _) =>
      SoundnessAll(b, es, env, m, deep);
      ListStep(b, es, env, m, deep);
    case MapOf(es, vt, _) =>
      SoundnessEntries(b, es, vt, env, m, deep);
      MapStep(b, es, env, m, deep);
  }

  lemma {:induction false} SoundnessAll(b: B.Bound, es: seq<B.Bound>, env: Env, m: B.RightOperand, deep: bool)
    requires forall i | 0 <= i < |es| :: es[i] < b && WellTyped(es[i], env.ctx, deep) && JoinsSound(es[i], deep)
    ensures SafeAll(B.EvalAllIn(es, env, m), es, deep)
    decreases b, 0, |es|
  {
    if es != [] {
      SoundnessAll(b, es[..|es| - 1], env, m, deep);
      Soundness(es[|es| - 1], env, m, deep);
      AllStep(es, es, env, m, deep);
    }
  }

  lemma {:induction false} SoundnessEntries(b: B.Bound, es: seq<B.Entry>, vt: ValueType, env: Env, m: B.RightOperand,
                                            deep: bool)
    requires forall i | 0 <= i < |es| ::
      es[i].value < b && WellTyped(es[i].value, env.ctx, deep) && JoinsSound(es[i].value, deep) &&
      Subfield(Scalar(es[i].value.info.typ), Scalar(vt), deep)
    ensures SafeEntries(B.EvalEntriesIn(es, env, m), es, vt)
    decreases b, 0, |es|
  {
    if es != [] {
      SoundnessEntries(b, es[..|es| - 1], vt, env, m, deep);
      Soundness(es[|es| - 1].value, env, m, deep);
      EntriesStep(es, es, vt, env, m, deep);
    }
  }

  lemma FieldHasItsType(v: Value, f: FieldSchema, deep: bool)
    requires HasField(v, f, deep)
    ensures HasType(v, f.typ)
  {
  }

  // Literals whose value is of their type, as the parser builds them.
  predicate LiteralsTyped(e: Ast.Expr)
    decreases e
  {
    match e
    case LiteralExpr(v, t) => HasType(v, t)
    case FactorRefExpr(_) => true
    case ConditionalExpr(c, t, f) => LiteralsTyped(c) && LiteralsTyped(t) && LiteralsTyped(f)
    case FunctionCallExpr(_, args) => forall i | 0 <= i < |args| :: LiteralsTyped(args[i])
    case ListExpr(es) => forall i | 0 <= i < |es| :: LiteralsTyped(es[i])
    case MapExpr(es) => forall i | 0 <= i < |es| :: LiteralsTyped(es[i].value)
    case UnaryExpr(_, x) => LiteralsTyped(x)
    case BinaryExpr(_, l, r) => LiteralsTyped(l) && LiteralsTyped(r)
  }

  // Descending a conforming object along a schema path ends in a value of the field found there.
  lemma {:induction false} DescendTyped(v: Value, path: seq<string>, schema: Fields, deep: bool)
    requires HasField(v, ObjectOf(schema), deep) && SchemaAt(schema, path).Ok?
    ensures match Descend(v, path) case Some(w) => HasField(w, SchemaAt(schema, path).value, deep) case None => true
    decreases |path|
  {
    if v.Map? && path[0] in v.entries && |path| > 1 {
      DescendTyped(v.entries[path[0]], path[1..], schema[path[0]].fields, deep);
    } else if v.Map? && path[0] in v.entries {
      assert path[1..] == [];
    }
  }

  lemma RefTyped(ref: FactorRef, reg: Registry, ctx: Context, deep: bool)
    requires Conforms(ctx, reg, deep) && BindFactorRef(ref, reg).Ok?
    ensures WellTyped(BindFactorRef(ref, reg).value, ctx, deep)
  {
    if ref.code in ctx {
      var root, schema := ctx[ref.code], reg[ref.code];
      var path := EffectivePath(ref, schema).value;
      if HasField(root, ObjectOf(schema), deep) { DescendTyped(root, path, schema, deep); }
      assert path != [] && path[0] in schema.Keys;
    }
  }

  lemma {:induction false} SubfieldReflexive(f: FieldSchema, deep: bool)
    ensures Subfield(f, f, deep)
    decreases f
  {
    if f.elem.Some? { SubfieldReflexive(f.elem.value, deep); }
    forall k | k in f.fields ensures Subfield(f.fields[k], f.fields[k], deep) { SubfieldReflexive(f.fields[k], deep); }
  }

  lemma WidensToMerged(t: ValueType, u: ValueType, deep: bool)
    requires EqualityCompatible(t, u)
    ensures Subfield(Scalar(t), Scalar(MergeComparable(t, u)), deep) &&
            Subfield(Scalar(u), Scalar(MergeComparable(t, u)), deep)
  {
  }

  lemma {:induction false} SubfieldTransitive(f: FieldSchema, g: FieldSchema, h: FieldSchema, deep: bool)
    requires Subfield(f, g, deep) && Subfield(g, h, deep)
    ensures Subfield(f, h, deep)
  {
    if !Subfield(f, h, deep) {
      var v := SubfieldComplete(f, h, deep);
      SubfieldSound(v, f, g, deep);
      SubfieldSound(v, g, h, deep);
    }
  }

  // Whether an arm says anything about contents.
  predicate Detailed(f: FieldSchema) {
    ((f.typ.MapT? || f.typ.ListT?) && f.elem.Some?) || (f.typ.ObjectT? && f.fields != map[])
  }

  // The merged field of a conditional covers its left arm always. It covers its right arm exactly if an arm is
  // null, the left arm says nothing about contents, or the right arm's values are among the left arm's.
  lemma JoinCovers(l: FieldSchema, r: FieldSchema, deep: bool)
    requires EqualityCompatible(l.typ, r.typ)
    ensures var t := MergeComparable(l.typ, r.typ);
            Subfield(l, MergeField(l, r, t), deep) && MergeField(l, r, t).typ == t &&
            (Subfield(r, MergeField(l, r, t), deep) <==>
             l.typ.NullT? || r.typ.NullT? || !Detailed(l) || Subfield(r, l, deep))
  {
    SubfieldReflexive(l, deep);
    SubfieldReflexive(r, deep);
    WidensToMerged(l.typ, r.typ, deep);
  }

  // Binding yields a well-typed tree in every conforming context.
  lemma {:induction false} BindWellTyped(e: Ast.Expr, reg: Registry, ctx: Context, deep: bool)
    requires Conforms(ctx, reg, deep) && LiteralsTyped(e) && Bind(e, reg).Ok?
    ensures WellTyped(Bind(e, reg).value, ctx, deep)
    decreases e, 1
  {
    match e
    case LiteralExpr(_, _) =>
    case FactorRefExpr(ref) => RefTyped(ref, reg, ctx, deep);
    case ConditionalExpr(_, _, _) => BindConditionalWellTyped(e, reg, ctx, deep);
    case FunctionCallExpr(name, _) =>
      if name == "get" { BindGetWellTyped(e, reg, ctx, deep); } else { BindCallWellTyped(e, reg, ctx, deep); }
    case ListExpr(es) => BindElementsWellTyped(es, reg, ctx, deep);
    case MapExpr(es) => BindEntriesWellTyped(es, reg, ctx, deep);
    case UnaryExpr(_, x) => BindWellTyped(x, reg, ctx, deep);
    case BinaryExpr(_, _, _) => BindBinaryWellTyped(e, reg, ctx, deep);
  }

  lemma {:induction false} BindCallWellTyped(e: Ast.Expr, reg: Registry, ctx: Context, deep: bool)
    requires e.FunctionCallExpr? && e.name != "get" && Conforms(ctx, reg, deep) && LiteralsTyped(e) && Bind(e, reg).Ok?
    ensures WellTyped(Bind(e, reg).value, ctx, deep)
    decreases e, 0
  {
    BindAllWellTyped(e.args, reg, ctx, deep);
    CallTyped(e.name, BindAll(e.args, reg).value, ctx, deep);
  }

  lemma CallTyped(name: string, args: seq<B.Bound>, ctx: Context, deep: bool)
    requires BindCall(name, args).Ok? && forall i | 0 <= i < |args| :: WellTyped(args[i], ctx, deep)
    ensures WellTyped(BindCall(name, args).value, ctx, deep)
  {
    var b := BindCall(name, args).value;
    assert b.Call? && b.args == args && !b.fn.Get? && b.info == ScalarInfo(BoolT) && |args| >= MinArgs(b.fn);
  }

  lemma {:induction false} BindConditionalWellTyped(e: Ast.Expr, reg: Registry, ctx: Context, deep: bool)
    requires e.ConditionalExpr? && Conforms(ctx, reg, deep) && LiteralsTyped(e) && Bind(e, reg).Ok?
    ensures WellTyped(Bind(e, reg).value, ctx, deep)
    decreases e, 0
  {
    BindWellTyped(e.cond, reg, ctx, deep);
    BindWellTyped(e.thn, reg, ctx, deep);
    BindWellTyped(e.els, reg, ctx, deep);
    JoinCovers(Bind(e.thn, reg).value.info.field, Bind(e.els, reg).value.info.field, deep);
  }

  lemma {:induction false} BindBinaryWellTyped(e: Ast.Expr, reg: Registry, ctx: Context, deep: bool)
    requires e.BinaryExpr? && Conforms(ctx, reg, deep) && LiteralsTyped(e) && Bind(e, reg).Ok?
    ensures WellTyped(Bind(e, reg).value, ctx, deep)
    decreases e, 0
  {
    BindWellTyped(e.left, reg, ctx, deep);
    BindWellTyped(e.right, reg, ctx, deep);
  }

  lemma {:induction false} BindGetWellTyped(e: Ast.Expr, reg: Registry, ctx: Context, deep: bool)
    requires e.FunctionCallExpr? && e.name == "get"
    requires Conforms(ctx, reg, deep) && LiteralsTyped(e) && Bind(e, reg).Ok?
    ensures WellTyped(Bind(e, reg).value, ctx, deep)
    decreases e, 0
  {
    var c := BindGetContainer(e.args[0], Bind(e.args[0], reg), reg).value;
    if e.args[0].FactorRefExpr? && e.args[0].ref.path == [] && !SingleValue(reg[e.args[0].ref.code]) {
      assert WellTyped(c, ctx, deep);
    } else {
      BindWellTyped(e.args[0], reg, ctx, deep);
    }
    BindWellTyped(e.args[1], reg, ctx, deep);
    GetFieldTyped(c, Bind(e.args[1], reg).value, ctx, deep);
  }

  lemma GetFieldTyped(c: B.Bound, key: B.Bound, ctx: Context, deep: bool)
    requires WellTyped(c, ctx, deep) && WellTyped(key, ctx, deep) && BindGet(c, key).Ok?
    ensures WellTyped(BindGet(c, key).value, ctx, deep)
  {
  }

  lemma {:induction false} BindAllWellTyped(es: seq<Ast.Expr>, reg: Registry, ctx: Context, deep: bool)
    requires Conforms(ctx, reg, deep) && (forall i | 0 <= i < |es| :: LiteralsTyped(es[i])) && BindAll(es, reg).Ok?
    ensures forall i | 0 <= i < |es| :: WellTyped(BindAll(es, reg).value[i], ctx, deep)
    decreases es, 0
  {
    if es != [] {
      BindAllWellTyped(es[..|es| - 1], reg, ctx, deep);
      BindWellTyped(es[|es| - 1], reg, ctx, deep);
    }
  }

  lemma {:induction false} BindElementsWellTyped(es: seq<Ast.Expr>, reg: Registry, ctx: Context, deep: bool)
    requires Conforms(ctx, reg, deep) && (forall i | 0 <= i < |es| :: LiteralsTyped(es[i])) && BindElements(es, reg).Ok?
    ensures var (bs, t) := BindElements(es, reg).value;
            forall i | 0 <= i < |es| :: WellTyped(bs[i], ctx, deep) && Subfield(Scalar(bs[i].info.typ), Scalar(t), deep)
    decreases es, 0
  {
    if es != [] {
      var init := es[..|es| - 1];
      BindElementsWellTyped(init, reg, ctx, deep);
      BindWellTyped(es[|es| - 1], reg, ctx, deep);
      var (bs, t) := BindElements(init, reg).value;
      var last := Bind(es[|es| - 1], reg).value.info.typ;
      var merged := MergeElement(|bs|, t, last).value;
      if |bs| > 0 { WidensToMerged(t, last, deep); } else { SubfieldReflexive(Scalar(last), deep); }
      forall i | 0 <= i < |init| ensures Subfield(Scalar(bs[i].info.typ), Scalar(merged), deep) {
        SubfieldTransitive(Scalar(bs[i].info.typ), Scalar(t), Scalar(merged), deep);
      }
    }
  }

  lemma {:induction false} BindEntriesWellTyped(es: seq<Ast.MapEntry>, reg: Registry, ctx: Context, deep: bool)
    requires Conforms(ctx, reg, deep) && (forall i | 0 <= i < |es| :: LiteralsTyped(es[i].value)) &&
             BindEntries(es, reg).Ok?
    ensures var (bs, t) := BindEntries(es, reg).value;
            forall i | 0 <= i < |es| ::
              WellTyped(bs[i].value, ctx, deep) && Subfield(Scalar(bs[i].value.info.typ), Scalar(t), deep)
    decreases es, 0
  {
    if es != [] {
      var init := es[..|es| - 1];
      BindEntriesWellTyped(init, reg, ctx, deep);
      BindWellTyped(es[|es| - 1].value, reg, ctx, deep);
      var (bs, t) := BindEntries(init, reg).value;
      var last := Bind(es[|es| - 1].value, reg).value.info.typ;
      var merged := MergeElement(|bs|, t, last).value;
      if |bs| > 0 { WidensToMerged(t, last, deep); } else { SubfieldReflexive(Scalar(last), deep); }
      forall i | 0 <= i < |init| ensures Subfield(Scalar(bs[i].value.info.typ), Scalar(merged), deep) {
        SubfieldTransitive(Scalar(bs[i].value.info.typ), Scalar(t), Scalar(merged), deep);
      }
    }
  }

  // What the type checker promises: binding succeeded, so evaluation in a conforming context yields a
  // value of the checked type or one of the two errors.
  lemma CheckedIsSafe(e: Ast.Expr, reg: Registry, env: Env, deep: bool)
    requires Conforms(env.ctx, reg, deep) && LiteralsTyped(e) && Bind(e, reg).Ok? &&
             JoinsSound(Bind(e, reg).value, deep)
    ensures Safe(B.Eval(Bind(e, reg).value, env), Bind(e, reg).value, deep)
  {
    BindWellTyped(e, reg, env.ctx, deep);
    Soundness(Bind(e, reg).value, env, B.Coerced, deep);
  }

  // The condition on conditionals is exact: over a factor with a flag and two compatible fields, choosing
  // between the fields is safe in every conforming context if and only if the join is sound.

  function Choosing(l: FieldSchema, r: FieldSchema): Registry {
    map["f" := map["c" := Scalar(BoolT), "l" := l, "r" := r]]
  }

  const CHOICE := Ast.ConditionalExpr(Field("c"), Field("l"), Field("r"))

  lemma ChoiceBinds(l: FieldSchema, r: FieldSchema)
    requires EqualityCompatible(l.typ, r.typ)
    ensures var t := MergeComparable(l.typ, r.typ);
            Bind(CHOICE, Choosing(l, r)) ==
            Ok(B.Cond(BoundField("c", ScalarInfo(BoolT)), BoundField("l", B.Info(l.typ, l)),
                      BoundField("r", B.Info(r.typ, r)), B.Info(t, MergeField(l, r, t))))
  {
    FieldBinds("c", Choosing(l, r));
    FieldBinds("l", Choosing(l, r));
    FieldBinds("r", Choosing(l, r));
  }

  lemma ChoiceUnsafe(l: FieldSchema, r: FieldSchema, fl: FloatOps, deep: bool) returns (ctx: Context)
    requires EqualityCompatible(l.typ, r.typ) && !Subfield(r, MergeField(l, r, MergeComparable(l.typ, r.typ)), deep)
    ensures Bind(CHOICE, Choosing(l, r)).Ok? && Conforms(ctx, Choosing(l, r), deep)
    ensures !Safe(B.Eval(Bind(CHOICE, Choosing(l, r)).value, Env(ctx, fl)), Bind(CHOICE, Choosing(l, r)).value, deep)
  {
    var v := SubfieldComplete(r, MergeField(l, r, MergeComparable(l.typ, r.typ)), deep);
    ctx := map["f" := Map(map["c" := Bool(false), "r" := v])];
    ChoiceBinds(l, r);
    var b := Bind(CHOICE, Choosing(l, r)).value;
    FieldMeans("c", b.cond.info, Bool(false), Env(ctx, fl), B.Coerced);
    FieldMeans("r", b.els.info, v, Env(ctx, fl), B.Coerced);
    assert B.Eval(b, Env(ctx, fl)) == Ok(v);
    ChoiceConforms(l, r, v, deep);
  }

  lemma ChoiceConforms(l: FieldSchema, r: FieldSchema, v: Value, deep: bool)
    requires HasField(v, r, deep)
    ensures Conforms(map["f" := Map(map["c" := Bool(false), "r" := v])], Choosing(l, r), deep)
  {
    var root := Map(map["c" := Bool(false), "r" := v]);
    var schema: Fields := map["c" := Scalar(BoolT), "l" := l, "r" := r];
    assert HasField(root.entries["c"], schema["c"], deep) && HasField(root.entries["r"], schema["r"], deep);
    assert HasField(root, ObjectOf(schema), deep);
  }

  lemma ChoiceExact(l: FieldSchema, r: FieldSchema, fl: FloatOps, deep: bool)
    requires EqualityCompatible(l.typ, r.typ)
    ensures Bind(CHOICE, Choosing(l, r)).Ok?
    ensures var b := Bind(CHOICE, Choosing(l, r)).value;
            JoinsSound(b, deep) <==>
            forall ctx | Conforms(ctx, Choosing(l, r), deep) :: Safe(B.Eval(b, Env(ctx, fl)), b, deep)
  {
    ChoiceBinds(l, r);
    JoinCovers(l, r, deep);
    if Subfield(r, MergeField(l, r, MergeComparable(l.typ, r.typ)), deep) {
      forall ctx | Conforms(ctx, Choosing(l, r), deep)
        ensures Safe(B.Eval(Bind(CHOICE, Choosing(l, r)).value, Env(ctx, fl)), Bind(CHOICE, Choosing(l, r)).value, deep)
      {
        CheckedIsSafe(CHOICE, Choosing(l, r), Env(ctx, fl), deep);
      }
    } else {
      var ctx := ChoiceUnsafe(l, r, fl, deep);
    }
  }

  // Without the condition on conditionals the promise is broken: `get(f.c ? {"a": 1} : {"a": "x"}, "a")`
  // is checked as INT and evaluates to a string when f.c is false.
  function SingletonMap(v: Value, t: ValueType): Ast.Expr {
    Ast.MapExpr([Ast.MapEntry("a", Ast.LiteralExpr(v, t))])
  }

  function MixedArms(): Ast.Expr {
    Ast.ConditionalExpr(Field("c"), SingletonMap(Int(1), IntT), SingletonMap(Str("x"), StringT))
  }

  function MixedMaps(): Ast.Expr {
    Ast.FunctionCallExpr("get", [MixedArms(), Ast.LiteralExpr(Str("a"), StringT)])
  }

  const FLAG_REGISTRY: Registry := map["f" := map["c" := Scalar(BoolT)]]

  lemma BindOneEntry(x: Ast.MapEntry, b: B.Bound, reg: Registry)
    requires Bind(x.value, reg) == Ok(b)
    ensures BindEntries([x], reg) == Ok(([B.Entry(x.key, b)], b.info.typ))
  {
    assert [x][..0] == [] && BindEntries([], reg) == Ok(([], Unset));
    assert [] + [B.Entry(x.key, b)] == [B.Entry(x.key, b)];
  }

  lemma EvalOneEntry(key: string, b: B.Bound, env: Env)
    requires B.Eval(b, env).Ok?
    ensures B.EvalEntriesIn([B.Entry(key, b)], env, B.Coerced) == Ok(map[key := B.Eval(b, env).value])
  {
    assert [B.Entry(key, b)][..0] == [] && B.EvalEntriesIn([], env, B.Coerced) == Ok(map[]);
  }

  lemma BindSingletonMap(v: Value, t: ValueType, env: Env)
    ensures var b := Bind(SingletonMap(v, t), FLAG_REGISTRY);
            b.Ok? && b.value.info == ContainerInfo(MapT, t) && B.Eval(b.value, env) == Ok(Map(map["a" := v]))
  {
    var x := Ast.MapEntry("a", Ast.LiteralExpr(v, t));
    var b := B.Literal(v, ScalarInfo(t));
    assert Bind(x.value, FLAG_REGISTRY) == Ok(b) && B.Eval(b, env) == Ok(v);
    BindOneEntry(x, b, FLAG_REGISTRY);
    EvalOneEntry("a", b, env);
  }

  lemma BindMixedArms(env: Env)
    requires "f" in env.ctx && env.ctx["f"] == Map(map["c" := Bool(false)])
    ensures var b := Bind(MixedArms(), FLAG_REGISTRY);
            b.Ok? && b.value.info == ContainerInfo(MapT, IntT) && B.Eval(b.value, env) == Ok(Map(map["a" := Str("x")]))
  {
    BindSingletonMap(Int(1), IntT, env);
    BindSingletonMap(Str("x"), StringT, env);
    var flag := Bind(MixedArms().cond, FLAG_REGISTRY);
    assert flag == Ok(B.Ref(Accessor("f", ["c"]), ScalarInfo(BoolT)));
    assert ["c"][1..] == [] && Descend(Bool(false), []) == Some(Bool(false));
    assert Descend(env.ctx["f"], ["c"]) == Some(Bool(false));
    assert B.EvalIn(flag.value, env, B.Coerced) == Ok(Bool(false));
  }

  lemma BindMixedMaps(container: B.Bound)
    requires Bind(MixedArms(), FLAG_REGISTRY) == Ok(container) && container.info == ContainerInfo(MapT, IntT)
    ensures Bind(MixedMaps(), FLAG_REGISTRY) ==
            Ok(B.Call(Get, [container, B.Literal(Str("a"), ScalarInfo(StringT))], ScalarInfo(IntT)))
  {
    var args := MixedMaps().args;
    assert args[0] == MixedArms() && Bind(args[1], FLAG_REGISTRY) == Ok(B.Literal(Str("a"), ScalarInfo(StringT)));
  }

  lemma MixedMapsConform(deep: bool)
    ensures Conforms(map["f" := Map(map["c" := Bool(false)])], FLAG_REGISTRY, deep) && LiteralsTyped(MixedMaps())
  {
    var arms := MixedArms();
    assert LiteralsTyped(arms.cond) && LiteralsTyped(arms.thn) && LiteralsTyped(arms.els);
    assert LiteralsTyped(arms);
  }

  lemma MixedMapsUnsound(env: Env)
    requires env.ctx == map["f" := Map(map["c" := Bool(false)])]
    ensures Bind(MixedMaps(), FLAG_REGISTRY).Ok? && Bind(MixedMaps(), FLAG_REGISTRY).value.info.typ == IntT
    ensures B.Eval(Bind(MixedMaps(), FLAG_REGISTRY).value, env) == Ok(Str("x"))
  {
    BindMixedArms(env);
    var container, key := Bind(MixedArms(), FLAG_REGISTRY).value, B.Literal(Str("a"), ScalarInfo(StringT));
    BindMixedMaps(container);
    EvalTwo(container, key, env);
    assert B.EvalIn(key, env, B.Coerced) == Ok(Str("a"));
  }

  lemma EvalTwo(x: B.Bound, y: B.Bound, env: Env)
    requires B.Eval(x, env).Ok? && B.Eval(y, env).Ok?
    ensures B.EvalAllIn([x, y], env, B.Coerced) == Ok([B.Eval(x, env).value, B.Eval(y, env).value])
  {
    assert [x, y][..1] == [x] && [x][..0] == [];
    assert B.EvalAllIn([x][..0], env, B.Coerced) == Ok([]);
    assert [] + [B.Eval(x, env).value] == [B.Eval(x, env).value];
    assert B.EvalAllIn([x], env, B.Coerced) == Ok([B.Eval(x, env).value]);
    assert [x, y][..|[x, y]| - 1] == [x];
    assert [B.Eval(x, env).value] + [B.Eval(y, env).value] == [B.Eval(x, env).value, B.Eval(y, env).value];
  }
}
