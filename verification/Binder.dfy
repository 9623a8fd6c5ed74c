// Type checking and binding of syntax trees.
module Binder {
  import opened Values
  import opened Operators
  import opened Schema
  import opened Ast
  import B = Bound

  predicate IsNumeric(t: ValueType) {
    t.IntT? || t.LongT? || t.DoubleT?
  }

  function MergeNumeric(l: ValueType, r: ValueType): ValueType {
    if l.DoubleT? || r.DoubleT? then DoubleT else if l.LongT? || r.LongT? then LongT else IntT
  }

  predicate OrderedComparable(l: ValueType, r: ValueType) {
    (IsNumeric(l) && IsNumeric(r)) || (l.StringT? && r.StringT?)
  }

  // Also the compatibility of the arms of a conditional.
  predicate EqualityCompatible(l: ValueType, r: ValueType) {
    l.NullT? || r.NullT? || l == r || (IsNumeric(l) && IsNumeric(r))
  }

  function MergeComparable(l: ValueType, r: ValueType): ValueType {
    if l.NullT? then r
    else if r.NullT? then l
    else if l == r then l
    else if IsNumeric(l) && IsNumeric(r) then MergeNumeric(l, r)
    else l
  }

  // The field schema of a conditional is the left arm's wherever it says anything about contents.
  function MergeField(l: FieldSchema, r: FieldSchema, t: ValueType): FieldSchema {
    if l.typ.NullT? then r
    else if r.typ.NullT? then l
    else if (t.MapT? || t.ListT?) && l.elem.Some? then l
    else if t.ObjectT? && l.fields != map[] then l
    else Scalar(t)
  }

  function ScalarInfo(t: ValueType): B.Info {
    B.Info(t, Scalar(t))
  }

  function ContainerInfo(t: ValueType, elem: ValueType): B.Info {
    B.Info(t, FieldSchema(t, true, map[], Some(Scalar(elem))))
  }

  function BindFactorRef(ref: FactorRef, reg: Registry): Result<B.Bound> {
    if ref.code !in reg then Err(UnknownIdentifier) else
    var field :- ResolveFactorRef(ref, reg[ref.code]);
    var accessor :- CompileAccessor(ref, reg[ref.code]);
    Ok(B.Ref(accessor, B.Info(field.typ, field)))
  }

  function BindUnary(op: Operator, x: B.Bound): Result<B.Bound> {
    match UnaryOperator(op)
    case Some(Not) =>
      if !x.info.typ.BoolT? then Err(TypeMismatch) else Ok(B.Unary(Not, x, ScalarInfo(BoolT)))
    case Some(Neg) =>
      if !IsNumeric(x.info.typ) then Err(TypeMismatch) else Ok(B.Unary(Neg, x, ScalarInfo(x.info.typ)))
    case None => Err(UnsupportedOperator)
  }

  function BinaryType(op: BinOp, l: ValueType, r: ValueType): Result<ValueType> {
    match op
    case And | Or => if !l.BoolT? || !r.BoolT? then Err(TypeMismatch) else Ok(BoolT)
    case Strict(Lt) | Strict(Le) | Strict(Gt) | Strict(Ge) =>
      if OrderedComparable(l, r) then Ok(BoolT) else Err(TypeMismatch)
    case Strict(Eq) | Strict(Ne) => if EqualityCompatible(l, r) then Ok(BoolT) else Err(TypeMismatch)
    case Strict(Add) | Strict(Sub) | Strict(Mul) | Strict(Div) =>
      if IsNumeric(l) && IsNumeric(r) then Ok(MergeNumeric(l, r)) else Err(TypeMismatch)
  }

  function BindBinary(op: Operator, l: B.Bound, r: B.Bound): Result<B.Bound> {
    match op
    case Bang => Err(UnsupportedOperator)
    case Binary(bop) =>
      var t :- BinaryType(bop, l.info.typ, r.info.typ);
      Ok(B.Binary(bop, l, r, ScalarInfo(t)))
  }

  function BindConditional(c: B.Bound, t: B.Bound, f: B.Bound): Result<B.Bound> {
    if !EqualityCompatible(t.info.typ, f.info.typ) then Err(TypeMismatch) else
    var merged := MergeComparable(t.info.typ, f.info.typ);
    Ok(B.Cond(c, t, f, B.Info(merged, MergeField(t.info.field, f.info.field, merged))))
  }

  // The container of `get` may be a whole factor with several fields.
  function BindGetContainer(e: Expr, bound: Result<B.Bound>, reg: Registry): Result<B.Bound> {
    if e.FactorRefExpr? && e.ref.path == [] && e.ref.code in reg && !SingleValue(reg[e.ref.code]) then
      Ok(B.Ref(Accessor(e.ref.code, []), B.Info(ObjectT, FieldSchema(ObjectT, true, reg[e.ref.code], None))))
    else bound
  }

  function GetResultField(container: FieldSchema, key: B.Bound): Result<FieldSchema> {
    match container.typ
    case MapT => if container.elem.None? then Err(TypeMismatch) else Ok(container.elem.value)
    case ObjectT =>
      if !key.Literal? || !key.info.typ.StringT? then Err(TypeMismatch)
      else
        var k := if key.value.Str? then key.value.s else "";
        if k in container.fields then Ok(container.fields[k]) else Err(FieldNotFound)
    case _ => Err(TypeMismatch)
  }

  function BindGet(container: B.Bound, key: B.Bound): Result<B.Bound> {
    if !key.info.typ.StringT? then Err(TypeMismatch) else
    var field :- GetResultField(container.info.field, key);
    Ok(B.Call(Get, [container, key], B.Info(field.typ, field)))
  }

  function ContainsAccepts(container: B.Bound, item: B.Bound): bool {
    match container
    case ListOf(_, elemType, _) => EqualityCompatible(elemType, item.info.typ)
    case Ref(_, info) => info.typ.StringT?
    case _ => container.info.typ.StringT? || container.info.typ.ListT?
  }

  function BindCall(name: string, args: seq<B.Bound>): Result<B.Bound> {
    match BuiltinNamed(name)
    case Some(IsEmpty) =>
      if |args| != 1 then Err(InvalidArgumentCount) else Ok(B.Call(IsEmpty, args, ScalarInfo(BoolT)))
    case Some(Exists) =>
      if |args| != 1 then Err(InvalidArgumentCount) else Ok(B.Call(Exists, args, ScalarInfo(BoolT)))
    case Some(In) =>
      if |args| < 2 then Err(InvalidArgumentCount)
      else if exists i | 1 <= i < |args| :: !EqualityCompatible(args[0].info.typ, args[i].info.typ)
      then Err(TypeMismatch)
      else Ok(B.Call(In, args, ScalarInfo(BoolT)))
    case Some(Contains) =>
      if |args| != 2 then Err(InvalidArgumentCount)
      else if !ContainsAccepts(args[0], args[1]) then Err(TypeMismatch)
      else Ok(B.Call(Contains, args, ScalarInfo(BoolT)))
    case _ => Err(UnknownFunction)
  }

  function Bind(e: Expr, reg: Registry): Result<B.Bound>
    decreases e, 1
  {
    match e
    case LiteralExpr(v, t) => Ok(B.Literal(v, ScalarInfo(t)))
    case FactorRefExpr(ref) => BindFactorRef(ref, reg)
    case ConditionalExpr(c, t, f) =>
      var bc :- Bind(c, reg);
      if !bc.info.typ.BoolT? then Err(TypeMismatch) else
      var bt :- Bind(t, reg);
      var bf :- Bind(f, reg);
      BindConditional(bc, bt, bf)
    case FunctionCallExpr(name, args) =>
      if name == "get" then
        if |args| != 2 then Err(InvalidArgumentCount) else
        var container :- BindGetContainer(args[0], Bind(args[0], reg), reg);
        var key :- Bind(args[1], reg);
        BindGet(container, key)
      else
        var bs :- BindAll(args, reg);
        BindCall(name, bs)
    case ListExpr(es) =>
      var (bs, t) :- BindElements(es, reg);
      Ok(B.ListOf(bs, t, ContainerInfo(ListT, t)))
    case MapExpr(es) =>
      var (bs, t) :- BindEntries(es, reg);
      Ok(B.MapOf(bs, t, ContainerInfo(MapT, t)))
    case UnaryExpr(op, x) =>
      var bx :- Bind(x, reg);
      BindUnary(op, bx)
    case BinaryExpr(op, l, r) =>
      var bl :- Bind(l, reg);
      var br :- Bind(r, reg);
      BindBinary(op, bl, br)
  }

  function BindAll(es: seq<Expr>, reg: Registry): (r: Result<seq<B.Bound>>)
    ensures r.Ok? ==> |r.value| == |es|
    decreases es, 0
  {
    if es == [] then Ok([]) else
    var bs :- BindAll(es[..|es| - 1], reg);
    var b :- Bind(es[|es| - 1], reg);
    Ok(bs + [b])
  }

  // The element type starts with the first element's and is merged with every later one's.
  function MergeElement(count: nat, t: ValueType, next: ValueType): Result<ValueType> {
    if count == 0 then Ok(next)
    else if EqualityCompatible(t, next) then Ok(MergeComparable(t, next))
    else Err(TypeMismatch)
  }

  function BindElements(es: seq<Expr>, reg: Registry): (r: Result<(seq<B.Bound>, ValueType)>)
    ensures r.Ok? ==> |r.value.0| == |es|
    decreases es, 0
  {
    if es == [] then Ok(([], Unset)) else
    var (bs, t) :- BindElements(es[..|es| - 1], reg);
    var b :- Bind(es[|es| - 1], reg);
    var t' :- MergeElement(|bs|, t, b.info.typ);
    Ok((bs + [b], t'))
  }

  function BindEntries(es: seq<MapEntry>, reg: Registry): (r: Result<(seq<B.Entry>, ValueType)>)
    ensures r.Ok? ==> |r.value.0| == |es|
    decreases es, 0
  {
    if es == [] then Ok(([], Unset)) else
    var (bs, t) :- BindEntries(es[..|es| - 1], reg);
    var b :- Bind(es[|es| - 1].value, reg);
    var t' :- MergeElement(|bs|, t, b.info.typ);
    Ok((bs + [B.Entry(es[|es| - 1].key, b)], t'))
  }
}
