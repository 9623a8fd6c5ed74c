// What the type checker accepts: exactly the trees in which no operation can meet values it has no meaning
// for, with its own conditions on equality, arms, elements and containers.
module Acceptance {
  import opened Values
  import opened Operators
  import opened Schema
  import opened Ast
  import opened Binder
  import opened Typing
  import opened Paths
  import opened Interpreter
  import B = Bound

  predicate Inhabited(t: ValueType) { !t.NullT? && !t.Unset? }

  // The operation has a meaning for all values of these types.
  ghost predicate UnaryMeant(op: UnOp, t: ValueType, fl: FloatOps) {
    Inhabited(t) && forall v | HasType(v, t) :: UnaryValue(op, v, fl) != Err(TypeMismatch)
  }

  ghost predicate BinaryMeant(op: StrictOp, t: ValueType, u: ValueType, fl: FloatOps) {
    Inhabited(t) && Inhabited(u) &&
    forall v, w | HasType(v, t) && HasType(w, u) :: BinaryValue(op, v, w, fl) != Err(TypeMismatch)
  }

  // Values of these types are worth comparing: one type is that of null, the types are the same, or values
  // other than null can be equal.
  ghost predicate Comparable(t: ValueType, u: ValueType, fl: FloatOps) {
    t.NullT? || u.NullT? || t == u ||
    exists v: Value, w: Value :: !v.Null? && !w.Null? && HasType(v, t) && HasType(w, u) && ValuesEqual(v, w, fl)
  }

  // Nothing but booleans and null.
  ghost predicate OnlyBooleans(t: ValueType) {
    Inhabited(t) && forall v | HasType(v, t) :: v.Null? || v.Bool?
  }

  // Every operator is refused exactly on types with values for which it has no meaning.

  lemma UnaryRefused(op: UnOp, t: ValueType, fl: FloatOps)
    ensures (if op.Not? then t.BoolT? else IsNumeric(t)) <==> UnaryMeant(op, t, fl)
  {
    if Inhabited(t) { assert HasType(Sample(t), t); }
    if if op.Not? then t.BoolT? else IsNumeric(t) {
      forall v | HasType(v, t) ensures UnaryValue(op, v, fl) != Err(TypeMismatch) { UnarySafe(op, v, t, fl); }
    }
  }

  lemma StrictRefused(op: StrictOp, t: ValueType, u: ValueType, fl: FloatOps)
    requires !op.Eq? && !op.Ne?
    ensures BinaryType(Strict(op), t, u).Ok? <==> BinaryMeant(op, t, u, fl)
  {
    if BinaryType(Strict(op), t, u).Ok? { AcceptedMeant(op, t, u, fl); } else { RefusedUnmeant(op, t, u, fl); }
  }

  lemma RefusedUnmeant(op: StrictOp, t: ValueType, u: ValueType, fl: FloatOps)
    requires !op.Eq? && !op.Ne? && BinaryType(Strict(op), t, u).Err?
    ensures !BinaryMeant(op, t, u, fl)
  {
    if Inhabited(t) && Inhabited(u) {
      SamplesTyped(t);
      SamplesTyped(u);
      SamplesMismatch(op, t, u, fl);
    }
  }

  lemma SamplesTyped(t: ValueType)
    requires Inhabited(t)
    ensures HasType(Sample(t), t)
  {
  }

  lemma AcceptedMeant(op: StrictOp, t: ValueType, u: ValueType, fl: FloatOps)
    requires !op.Eq? && !op.Ne? && BinaryType(Strict(op), t, u).Ok?
    ensures BinaryMeant(op, t, u, fl)
  {
    forall v, w | HasType(v, t) && HasType(w, u) ensures BinaryValue(op, v, w, fl) != Err(TypeMismatch) {
      BinarySafe(op, v, w, t, u, fl);
    }
  }

  lemma SamplesMismatch(op: StrictOp, t: ValueType, u: ValueType, fl: FloatOps)
    requires !op.Eq? && !op.Ne? && Inhabited(t) && Inhabited(u) && BinaryType(Strict(op), t, u).Err?
    ensures BinaryValue(op, Sample(t), Sample(u), fl) == Err(TypeMismatch)
  {
  }

  lemma ComparableExact(t: ValueType, u: ValueType, fl: FloatOps)
    ensures EqualityCompatible(t, u) <==> Comparable(t, u, fl)
  {
    if IsNumeric(t) && IsNumeric(u) {
      assert HasType(Int(0), t) && HasType(Int(0), u) && ValuesEqual(Int(0), Int(0), fl);
    }
  }

  lemma OnlyBooleansExact(t: ValueType)
    ensures t.BoolT? <==> OnlyBooleans(t)
  {
    if Inhabited(t) { assert HasType(Sample(t), t); }
  }

  // The type of an accepted tree, and its field.
  function FieldOf(e: Expr, reg: Registry): FieldSchema {
    if Bind(e, reg).Ok? then Bind(e, reg).value.info.field else Scalar(Unset)
  }

  function TypeOf(e: Expr, reg: Registry): ValueType {
    if Bind(e, reg).Ok? then Bind(e, reg).value.info.typ else Unset
  }

  // What `get` may be applied to: a map, or an object and a key that is a literal name of one of its fields.
  predicate Gettable(container: FieldSchema, key: Expr) {
    (container.typ.MapT? && container.elem.Some?) ||
    (container.typ.ObjectT? && key.LiteralExpr? &&
     (if key.value.Str? then key.value.s else "") in container.fields)
  }

  // What `contains` may be applied to. Of a list that a reference stands for it cannot be asked.
  ghost predicate Searchable(container: Expr, item: Expr, reg: Registry, fl: FloatOps) {
    match container
    case ListExpr(es) =>
      if es == [] then !Inhabited(TypeOf(item, reg))
      else forall x <- es :: Comparable(TypeOf(x, reg), TypeOf(item, reg), fl)
    case FactorRefExpr(_) => TypeOf(container, reg).StringT?
    case _ => TypeOf(container, reg).StringT? || TypeOf(container, reg).ListT?
  }

  // The references of the tree resolve, and every node meets the condition of its operation.
  ghost predicate Meant(e: Expr, reg: Registry, fl: FloatOps)
    decreases e
  {
    match e
    case LiteralExpr(_, _) => true
    case FactorRefExpr(ref) =>
      ref.code in reg &&
      if ref.path == [] then reg[ref.code].Keys == {"value"}
      else exists f :: Declares(ObjectOf(reg[ref.code]), ref.path, f)
    case ConditionalExpr(c, t, f) =>
      Meant(c, reg, fl) && Meant(t, reg, fl) && Meant(f, reg, fl) &&
      OnlyBooleans(TypeOf(c, reg)) && Comparable(TypeOf(t, reg), TypeOf(f, reg), fl)
    case UnaryExpr(op, x) =>
      Meant(x, reg, fl) &&
      ((op == Bang && UnaryMeant(Not, TypeOf(x, reg), fl)) || (op == MINUS && UnaryMeant(Neg, TypeOf(x, reg), fl)))
    case BinaryExpr(op, l, r) =>
      Meant(l, reg, fl) && Meant(r, reg, fl) && OperandsMeant(op, TypeOf(l, reg), TypeOf(r, reg), fl)
    case ListExpr(es) =>
      (forall i | 0 <= i < |es| :: Meant(es[i], reg, fl)) &&
      forall i, j | 0 <= i < j < |es| :: Comparable(TypeOf(es[i], reg), TypeOf(es[j], reg), fl)
    case MapExpr(es) =>
      (forall i | 0 <= i < |es| :: Meant(es[i].value, reg, fl)) &&
      forall i, j | 0 <= i < j < |es| :: Comparable(TypeOf(es[i].value, reg), TypeOf(es[j].value, reg), fl)
    case FunctionCallExpr(name, args) =>
      if name == "get" && |args| == 2 && WholeFactor(args[0], reg) then
        Meant(args[1], reg, fl) && TypeOf(args[1], reg).StringT? && Gettable(ObjectOf(reg[args[0].ref.code]), args[1])
      else (forall i | 0 <= i < |args| :: Meant(args[i], reg, fl)) && ArgumentsMeant(name, args, reg, fl)
  }

  ghost predicate OperandsMeant(op: Operator, t: ValueType, u: ValueType, fl: FloatOps) {
    match op
    case Bang => false
    case Binary(And) | Binary(Or) => OnlyBooleans(t) && OnlyBooleans(u)
    case Binary(Strict(Eq)) | Binary(Strict(Ne)) => Comparable(t, u, fl)
    case Binary(Strict(o)) => BinaryMeant(o, t, u, fl)
  }

  ghost predicate ArgumentsMeant(name: string, args: seq<Expr>, reg: Registry, fl: FloatOps) {
    match name
    case "exists" | "isEmpty" => |args| == 1
    case "in" => |args| >= 2 && forall i | 1 <= i < |args| :: Comparable(TypeOf(args[0], reg), TypeOf(args[i], reg), fl)
    case "contains" => |args| == 2 && Searchable(args[0], args[1], reg, fl)
    case "get" => |args| == 2 && TypeOf(args[1], reg).StringT? && Gettable(FieldOf(args[0], reg), args[1])
    case _ => false
  }

  // The proof, node by node: conditions on types as the checker decides them.

  predicate Pairwise(ts: seq<ValueType>) {
    forall i, j | 0 <= i < j < |ts| :: EqualityCompatible(ts[i], ts[j])
  }

  lemma MergedCompatible(t: ValueType, next: ValueType, u: ValueType)
    requires EqualityCompatible(t, next)
    ensures EqualityCompatible(MergeComparable(t, next), u) <==> EqualityCompatible(t, u) && EqualityCompatible(next, u)
  {
  }

  // Elements are accepted one by one exactly if they fit pairwise; and then something fits the merged type
  // exactly if it fits every element's.
  ghost predicate Merges(ts: seq<ValueType>, r: Result<ValueType>) {
    (r.Ok? <==> Pairwise(ts)) &&
    (r.Ok? && ts == [] ==> r.value == Unset) &&
    (r.Ok? && ts != [] ==>
       forall u :: EqualityCompatible(r.value, u) <==> FitsAll(ts, u))
  }

  lemma MergesNext(ts: seq<ValueType>, r: Result<ValueType>, t: ValueType)
    requires Merges(ts, r)
    ensures Merges(ts + [t], if r.Ok? then MergeElement(|ts|, r.value, t) else r)
  {
    if r.Err? {
      PairwisePrefix(ts, t);
    } else if ts == [] {
      MergesOne(t);
    } else if EqualityCompatible(r.value, t) {
      MergesMore(ts, r.value, t);
    } else {
      MergesNot(ts, r.value, t);
    }
  }

  lemma PairwisePrefix(ts: seq<ValueType>, t: ValueType)
    ensures Pairwise(ts + [t]) <==> Pairwise(ts) && forall i | 0 <= i < |ts| :: EqualityCompatible(ts[i], t)
  {
    var us := ts + [t];
    assert us[|ts|] == t && forall i | 0 <= i < |ts| :: us[i] == ts[i];
    if Pairwise(us) {
      forall i, j | 0 <= i < j < |ts| ensures EqualityCompatible(ts[i], ts[j]) {
        assert EqualityCompatible(us[i], us[j]);
      }
      forall i | 0 <= i < |ts| ensures EqualityCompatible(ts[i], t) { assert EqualityCompatible(us[i], us[|ts|]); }
    }
  }

  ghost predicate FitsAll(ts: seq<ValueType>, u: ValueType) {
    forall i | 0 <= i < |ts| :: EqualityCompatible(ts[i], u)
  }

  lemma FitsAllNext(ts: seq<ValueType>, t: ValueType, u: ValueType)
    ensures FitsAll(ts + [t], u) <==> FitsAll(ts, u) && EqualityCompatible(t, u)
  {
    var us := ts + [t];
    assert us[|ts|] == t && forall i | 0 <= i < |ts| :: us[i] == ts[i];
  }

  lemma MergesOne(t: ValueType)
    ensures Merges([] + [t], Ok(t))
  {
    var ts: seq<ValueType> := [];
    forall u ensures EqualityCompatible(t, u) <==> FitsAll(ts + [t], u) { FitsAllNext(ts, t, u); }
    PairwisePrefix(ts, t);
    assert [] + [t] == ts + [t];
  }

  lemma MergesMore(ts: seq<ValueType>, merged: ValueType, t: ValueType)
    requires ts != [] && Merges(ts, Ok(merged)) && EqualityCompatible(merged, t)
    ensures Merges(ts + [t], Ok(MergeComparable(merged, t)))
  {
    forall u ensures EqualityCompatible(MergeComparable(merged, t), u) <==> FitsAll(ts + [t], u) {
      MergedCompatible(merged, t, u);
      FitsAllNext(ts, t, u);
    }
    PairwisePrefix(ts, t);
    assert FitsAll(ts, t);
  }

  lemma MergesNot(ts: seq<ValueType>, merged: ValueType, t: ValueType)
    requires ts != [] && Merges(ts, Ok(merged)) && !EqualityCompatible(merged, t)
    ensures !Pairwise(ts + [t])
  {
    PairwisePrefix(ts, t);
    assert !FitsAll(ts, t);
  }

  function TypesOf(es: seq<Expr>, reg: Registry): (ts: seq<ValueType>)
    ensures |ts| == |es| && forall i | 0 <= i < |es| :: ts[i] == TypeOf(es[i], reg)
  {
    seq(|es|, i requires 0 <= i < |es| => TypeOf(es[i], reg))
  }

  function ValuesOf(es: seq<MapEntry>): (xs: seq<Expr>)
    ensures |xs| == |es| && forall i | 0 <= i < |es| :: xs[i] == es[i].value
  {
    seq(|es|, i requires 0 <= i < |es| => es[i].value)
  }

  ghost predicate AllBind(es: seq<Expr>, reg: Registry) {
    forall i | 0 <= i < |es| :: Bind(es[i], reg).Ok?
  }

  lemma {:induction false} AllBound(es: seq<Expr>, reg: Registry)
    ensures BindAll(es, reg).Ok? <==> AllBind(es, reg)
    ensures BindAll(es, reg).Ok? ==> forall i | 0 <= i < |es| :: BindAll(es, reg).value[i] == Bind(es[i], reg).value
  {
    if es != [] {
      var init := es[..|es| - 1];
      AllBound(init, reg);
      assert AllBind(es, reg) <==> AllBind(init, reg) && Bind(es[|es| - 1], reg).Ok? by {
        assert forall i | 0 <= i < |init| :: es[i] == init[i];
      }
    }
  }

  function MergedType<T>(r: Result<(T, ValueType)>): Result<ValueType> {
    match r
    case Ok((_, t)) => Ok(t)
    case Err(c) => Err(c)
  }

  lemma AllBindNext(es: seq<Expr>, reg: Registry)
    requires es != []
    ensures AllBind(es, reg) <==> AllBind(es[..|es| - 1], reg) && Bind(es[|es| - 1], reg).Ok?
  {
    var init := es[..|es| - 1];
    assert forall i | 0 <= i < |init| :: es[i] == init[i];
  }

  lemma TypesNext(es: seq<Expr>, reg: Registry)
    requires es != []
    ensures TypesOf(es, reg) == TypesOf(es[..|es| - 1], reg) + [TypeOf(es[|es| - 1], reg)]
  {
  }

  lemma {:induction false} ElementsBound(es: seq<Expr>, reg: Registry)
    ensures AllBind(es, reg) ==> Merges(TypesOf(es, reg), MergedType(BindElements(es, reg)))
    ensures BindElements(es, reg).Ok? ==> AllBind(es, reg)
  {
    if es != [] {
      ElementsBound(es[..|es| - 1], reg);
      AllBindNext(es, reg);
      if AllBind(es, reg) { ElementsNext(es, reg); }
    }
  }

  lemma ElementsNext(es: seq<Expr>, reg: Registry)
    requires es != [] && Bind(es[|es| - 1], reg).Ok?
    requires var init := es[..|es| - 1]; Merges(TypesOf(init, reg), MergedType(BindElements(init, reg)))
    ensures Merges(TypesOf(es, reg), MergedType(BindElements(es, reg)))
  {
    var init := es[..|es| - 1];
    MergesNext(TypesOf(init, reg), MergedType(BindElements(init, reg)), TypeOf(es[|es| - 1], reg));
    TypesNext(es, reg);
  }

  lemma {:induction false} EntriesBound(es: seq<MapEntry>, reg: Registry)
    ensures AllBind(ValuesOf(es), reg) ==> Merges(TypesOf(ValuesOf(es), reg), MergedType(BindEntries(es, reg)))
    ensures BindEntries(es, reg).Ok? ==> AllBind(ValuesOf(es), reg)
  {
    if es != [] {
      EntriesBound(es[..|es| - 1], reg);
      ValuesNext(es);
      AllBindNext(ValuesOf(es), reg);
      if AllBind(ValuesOf(es), reg) { EntriesNext(es, reg); }
    }
  }

  lemma ValuesNext(es: seq<MapEntry>)
    requires es != []
    ensures var xs := ValuesOf(es);
            xs[..|xs| - 1] == ValuesOf(es[..|es| - 1]) && xs[|xs| - 1] == es[|es| - 1].value
  {
  }

  lemma EntriesNext(es: seq<MapEntry>, reg: Registry)
    requires es != [] && Bind(es[|es| - 1].value, reg).Ok?
    requires var init := es[..|es| - 1]; Merges(TypesOf(ValuesOf(init), reg), MergedType(BindEntries(init, reg)))
    ensures Merges(TypesOf(ValuesOf(es), reg), MergedType(BindEntries(es, reg)))
  {
    var init := es[..|es| - 1];
    MergesNext(TypesOf(ValuesOf(init), reg), MergedType(BindEntries(init, reg)), TypeOf(es[|es| - 1].value, reg));
    ValuesNext(es);
    TypesNext(ValuesOf(es), reg);
  }

  lemma AllComparable(ts: seq<ValueType>, fl: FloatOps)
    ensures Pairwise(ts) <==> forall i, j | 0 <= i < j < |ts| :: Comparable(ts[i], ts[j], fl)
  {
    forall i, j | 0 <= i < j < |ts| ensures EqualityCompatible(ts[i], ts[j]) <==> Comparable(ts[i], ts[j], fl) {
      ComparableExact(ts[i], ts[j], fl);
    }
  }

  // The type checker accepts exactly such trees.
  lemma {:induction false} BindExact(e: Expr, reg: Registry, fl: FloatOps)
    ensures Bind(e, reg).Ok? <==> Meant(e, reg, fl)
    decreases e, 1
  {
    match e
    case LiteralExpr(_, _) =>
    case FactorRefExpr(ref) => BindExactReference(ref, reg);
    case ConditionalExpr(c, t, f) =>
      BindExact(c, reg, fl);
      BindExact(t, reg, fl);
      BindExact(f, reg, fl);
      OnlyBooleansExact(TypeOf(c, reg));
      ComparableExact(TypeOf(t, reg), TypeOf(f, reg), fl);
    case UnaryExpr(_, x) =>
      BindExact(x, reg, fl);
      UnaryRefused(Not, TypeOf(x, reg), fl);
      UnaryRefused(Neg, TypeOf(x, reg), fl);
    case BinaryExpr(op, l, r) =>
      BindExact(l, reg, fl);
      BindExact(r, reg, fl);
      OperandsExact(op, TypeOf(l, reg), TypeOf(r, reg), fl);
    case ListExpr(es) =>
      forall i | 0 <= i < |es| ensures Bind(es[i], reg).Ok? <==> Meant(es[i], reg, fl) { BindExact(es[i], reg, fl); }
      BindExactElements(es, reg, fl);
    case MapExpr(es) =>
      forall i | 0 <= i < |es| ensures Bind(es[i].value, reg).Ok? <==> Meant(es[i].value, reg, fl) {
        BindExact(es[i].value, reg, fl);
      }
      BindExactEntries(es, reg, fl);
    case FunctionCallExpr(_, args) =>
      forall i | 0 <= i < |args| ensures Bind(args[i], reg).Ok? <==> Meant(args[i], reg, fl) {
        BindExact(args[i], reg, fl);
      }
      BindExactCall(e, reg, fl);
  }

  lemma BindExactReference(ref: FactorRef, reg: Registry)
    ensures BindFactorRef(ref, reg).Ok? <==>
            ref.code in reg &&
            if ref.path == [] then reg[ref.code].Keys == {"value"}
      else exists f :: Declares(ObjectOf(reg[ref.code]), ref.path, f)
  {
    if ref.code in reg && ref.path != [] {
      var top := ObjectOf(reg[ref.code]);
      if f :| Declares(top, ref.path, f) { SchemaAtExact(top, ref.path, f); }
      if SchemaAt(top.fields, ref.path).Ok? { SchemaAtExact(top, ref.path, SchemaAt(top.fields, ref.path).value); }
    }
  }

  lemma OperandsExact(op: Operator, t: ValueType, u: ValueType, fl: FloatOps)
    ensures op.Binary? && BinaryType(op.op, t, u).Ok? <==> OperandsMeant(op, t, u, fl)
  {
    match op
    case Bang =>
    case Binary(And) =>
      OnlyBooleansExact(t);
      OnlyBooleansExact(u);
    case Binary(Or) =>
      OnlyBooleansExact(t);
      OnlyBooleansExact(u);
    case Binary(Strict(o)) => if o.Eq? || o.Ne? { ComparableExact(t, u, fl); } else { StrictRefused(o, t, u, fl); }
  }

  lemma BindExactElements(es: seq<Expr>, reg: Registry, fl: FloatOps)
    ensures BindElements(es, reg).Ok? <==>
            AllBind(es, reg) &&
            forall i, j | 0 <= i < j < |es| :: Comparable(TypeOf(es[i], reg), TypeOf(es[j], reg), fl)
  {
    ElementsBound(es, reg);
    AllComparable(TypesOf(es, reg), fl);
  }

  lemma BindExactEntries(es: seq<MapEntry>, reg: Registry, fl: FloatOps)
    ensures BindEntries(es, reg).Ok? <==>
            (forall i | 0 <= i < |es| :: Bind(es[i].value, reg).Ok?) &&
            forall i, j | 0 <= i < j < |es| :: Comparable(TypeOf(es[i].value, reg), TypeOf(es[j].value, reg), fl)
  {
    var xs := ValuesOf(es);
    EntriesBound(es, reg);
    AllComparable(TypesOf(xs, reg), fl);
    assert AllBind(xs, reg) <==> forall i | 0 <= i < |es| :: Bind(es[i].value, reg).Ok?;
    forall i, j | 0 <= i < j < |es|
      ensures Comparable(TypesOf(xs, reg)[i], TypesOf(xs, reg)[j], fl) <==>
              Comparable(TypeOf(es[i].value, reg), TypeOf(es[j].value, reg), fl)
    {
    }
  }

  lemma BindExactCall(e: Expr, reg: Registry, fl: FloatOps)
    requires e.FunctionCallExpr? && forall i | 0 <= i < |e.args| :: Bind(e.args[i], reg).Ok? <==>
             Meant(e.args[i], reg, fl)
    ensures Bind(e, reg).Ok? <==> Meant(e, reg, fl)
  {
    if e.name == "get" {
      if |e.args| == 2 { BindExactGet(e, reg, fl); }
    } else {
      AllBound(e.args, reg);
      if AllBind(e.args, reg) { ArgumentsExact(e.name, e.args, reg, fl); }
    }
  }

  lemma GettableExact(container: FieldSchema, key: Expr, reg: Registry)
    requires Bind(key, reg).Ok? && TypeOf(key, reg).StringT?
    ensures GetResultField(container, Bind(key, reg).value).Ok? <==> Gettable(container, key)
  {
    BoundLiterals(key, reg);
  }

  lemma BoundLiterals(e: Expr, reg: Registry)
    requires Bind(e, reg).Ok?
    ensures Bind(e, reg).value.Literal? <==> e.LiteralExpr?
    ensures Bind(e, reg).value.Ref? <==> e.FactorRefExpr?
    ensures Bind(e, reg).value.ListOf? <==> e.ListExpr?
    ensures e.LiteralExpr? ==> Bind(e, reg).value == B.Literal(e.value, ScalarInfo(e.typ))
    ensures e.ListExpr? ==> BindElements(e.elements, reg).Ok? &&
                            Bind(e, reg).value.elemType == BindElements(e.elements, reg).value.1
  {
  }

  lemma BindExactGet(e: Expr, reg: Registry, fl: FloatOps)
    requires e.FunctionCallExpr? && e.name == "get" && |e.args| == 2
    requires forall i | 0 <= i < |e.args| :: Bind(e.args[i], reg).Ok? <==> Meant(e.args[i], reg, fl)
    ensures Bind(e, reg).Ok? <==> Meant(e, reg, fl)
  {
    var container, key := e.args[0], e.args[1];
    assert Bind(container, reg).Ok? <==> Meant(container, reg, fl);
    assert Bind(key, reg).Ok? <==> Meant(key, reg, fl);
    GetBinds(e, reg);
    GetMeant(e, reg, fl);
    if Bind(key, reg).Ok? && TypeOf(key, reg).StringT? { GettableExact(GetField(container, reg), key, reg); }
  }

  // The field that `get` looks into.
  function GetField(container: Expr, reg: Registry): FieldSchema {
    if WholeFactor(container, reg) then ObjectOf(reg[container.ref.code]) else FieldOf(container, reg)
  }

  // When `get` is bound, and when it has a meaning, in terms of its parts.

  lemma GetBinds(e: Expr, reg: Registry)
    requires e.FunctionCallExpr? && e.name == "get" && |e.args| == 2
    ensures var container, key := e.args[0], e.args[1];
            Bind(e, reg).Ok? <==>
            (WholeFactor(container, reg) || Bind(container, reg).Ok?) && Bind(key, reg).Ok? &&
            TypeOf(key, reg).StringT? && GetResultField(GetField(container, reg), Bind(key, reg).value).Ok?
  {
  }

  lemma GetMeant(e: Expr, reg: Registry, fl: FloatOps)
    requires e.FunctionCallExpr? && e.name == "get" && |e.args| == 2
    ensures var container, key := e.args[0], e.args[1];
            Meant(e, reg, fl) <==>
            (WholeFactor(container, reg) || Meant(container, reg, fl)) && Meant(key, reg, fl) &&
            TypeOf(key, reg).StringT? && Gettable(GetField(container, reg), key)
  {
  }

  lemma ArgumentsExact(name: string, args: seq<Expr>, reg: Registry, fl: FloatOps)
    requires name != "get" && AllBind(args, reg) && BindAll(args, reg).Ok?
    requires forall i | 0 <= i < |args| :: BindAll(args, reg).value[i] == Bind(args[i], reg).value
    ensures BindCall(name, BindAll(args, reg).value).Ok? <==> ArgumentsMeant(name, args, reg, fl)
  {
    var bs := BindAll(args, reg).value;
    if name == "in" && |args| >= 2 {
      CandidatesExact(args, bs, reg, fl);
    } else if name == "contains" && |args| == 2 {
      SearchableExact(args[0], args[1], reg, fl);
    }
  }

  lemma CandidatesExact(args: seq<Expr>, bs: seq<B.Bound>, reg: Registry, fl: FloatOps)
    requires |args| == |bs| >= 2 && AllBind(args, reg) &&
             forall i | 0 <= i < |args| :: bs[i] == Bind(args[i], reg).value
    ensures (forall i | 1 <= i < |bs| :: EqualityCompatible(bs[0].info.typ, bs[i].info.typ)) <==>
            forall i | 1 <= i < |args| :: Comparable(TypeOf(args[0], reg), TypeOf(args[i], reg), fl)
  {
    forall i | 0 <= i < |args| ensures bs[i].info.typ == TypeOf(args[i], reg) { assert Bind(args[i], reg).Ok?; }
    forall i | 1 <= i < |args|
      ensures EqualityCompatible(bs[0].info.typ, bs[i].info.typ) <==>
              Comparable(TypeOf(args[0], reg), TypeOf(args[i], reg), fl)
    {
      ComparableExact(TypeOf(args[0], reg), TypeOf(args[i], reg), fl);
    }
  }

  lemma SearchableExact(container: Expr, item: Expr, reg: Registry, fl: FloatOps)
    requires Bind(container, reg).Ok? && Bind(item, reg).Ok?
    ensures ContainsAccepts(Bind(container, reg).value, Bind(item, reg).value) <==> Searchable(container, item, reg, fl)
  {
    BoundLiterals(container, reg);
    if container.ListExpr? {
      var es, u := container.elements, TypeOf(item, reg);
      ElementsBound(es, reg);
      var ts := TypesOf(es, reg);
      forall i | 0 <= i < |ts| ensures EqualityCompatible(ts[i], u) <==> Comparable(TypeOf(es[i], reg), u, fl) {
        ComparableExact(ts[i], u, fl);
      }
      EachMember(es, reg, u, fl);
    }
  }

  lemma EachMember(es: seq<Expr>, reg: Registry, u: ValueType, fl: FloatOps)
    ensures (forall x <- es :: Comparable(TypeOf(x, reg), u, fl)) <==>
            forall i | 0 <= i < |es| :: Comparable(TypeOf(es[i], reg), u, fl)
  {
    if forall i | 0 <= i < |es| :: Comparable(TypeOf(es[i], reg), u, fl) {
      forall x <- es ensures Comparable(TypeOf(x, reg), u, fl) { var i :| 0 <= i < |es| && es[i] == x; }
    }
  }

  // Types of results

  // Null is below every type, INT below LONG, and both below DOUBLE.
  predicate Below(t: ValueType, u: ValueType) {
    t.NullT? || t == u || (t.IntT? && (u.LongT? || u.DoubleT?)) || (t.LongT? && u.DoubleT?)
  }

  ghost predicate LeastAbove(t: ValueType, u: ValueType, r: ValueType) {
    Below(t, r) && Below(u, r) && forall s | Below(t, s) && Below(u, s) :: Below(r, s)
  }

  // Comparisons and connectives are boolean; arithmetic is of the least type above its operands'; and so are
  // conditionals and their arms, lists and maps and their elements.
  lemma ResultTypes(op: BinOp, t: ValueType, u: ValueType)
    ensures BinaryType(op, t, u).Ok? && op in {Strict(Add), Strict(Sub), Strict(Mul), Strict(Div)} ==>
              LeastAbove(t, u, BinaryType(op, t, u).value)
    ensures BinaryType(op, t, u).Ok? && op !in {Strict(Add), Strict(Sub), Strict(Mul), Strict(Div)} ==>
              BinaryType(op, t, u).value == BoolT
    ensures EqualityCompatible(t, u) ==> LeastAbove(t, u, MergeComparable(t, u))
  {
  }

  // How a node is refused whose parts are accepted.

  lemma RefusedReference(ref: FactorRef, reg: Registry)
    requires BindFactorRef(ref, reg).Err?
    ensures BindFactorRef(ref, reg).code ==
            if ref.code !in reg then UnknownIdentifier else if ref.path == [] then FactorRefAmbiguous else FieldNotFound
  {
    if ref.code in reg { MissingField(reg[ref.code], ref.path); }
  }

  lemma {:induction false} MissingField(schema: Fields, path: seq<string>)
    ensures SchemaAt(schema, path).Err? ==> SchemaAt(schema, path) == Err(FieldNotFound)
    decreases |path|
  {
    if |path| > 1 && path[0] in schema { MissingField(schema[path[0]].fields, path[1..]); }
  }

  lemma RefusedOperation(e: Expr, reg: Registry)
    requires Bind(e, reg).Err?
    ensures e.UnaryExpr? && Bind(e.operand, reg).Ok? ==>
              Bind(e, reg).code == if UnaryOperator(e.uop).None? then UnsupportedOperator else TypeMismatch
    ensures e.BinaryExpr? && Bind(e.left, reg).Ok? && Bind(e.right, reg).Ok? ==>
              Bind(e, reg).code == if e.op.Bang? then UnsupportedOperator else TypeMismatch
    ensures e.ConditionalExpr? && Bind(e.cond, reg).Ok? && Bind(e.thn, reg).Ok? && Bind(e.els, reg).Ok? ==>
              Bind(e, reg).code == TypeMismatch
  {
  }

  lemma {:induction false} RefusedElements(es: seq<Expr>, reg: Registry)
    requires AllBind(es, reg)
    ensures BindElements(es, reg).Err? ==> BindElements(es, reg) == Err(TypeMismatch)
  {
    if es != [] {
      AllBindNext(es, reg);
      RefusedElements(es[..|es| - 1], reg);
    }
  }

  lemma RefusedCall(name: string, args: seq<B.Bound>)
    requires BindCall(name, args).Err?
    ensures BindCall(name, args).code ==
            if name !in {"exists", "isEmpty", "in", "contains"} then UnknownFunction
            else if (name == "in" && |args| < 2) || (name == "contains" && |args| != 2) ||
                    (name in {"exists", "isEmpty"} && |args| != 1)
            then InvalidArgumentCount
            else TypeMismatch
  {
  }

  lemma RefusedGet(e: Expr, reg: Registry)
    requires e.FunctionCallExpr? && e.name == "get" && Bind(e, reg).Err?
    requires |e.args| == 2 ==>
      Bind(e.args[1], reg).Ok? && (Bind(e.args[0], reg).Ok? || WholeFactor(e.args[0], reg))
    ensures Bind(e, reg).code ==
            if |e.args| != 2 then InvalidArgumentCount
            else if TypeOf(e.args[1], reg).StringT? && e.args[1].LiteralExpr? && GetField(e.args[0], reg).typ.ObjectT?
            then FieldNotFound
            else TypeMismatch
  {
    if |e.args| == 2 { BoundLiterals(e.args[1], reg); }
  }
}
