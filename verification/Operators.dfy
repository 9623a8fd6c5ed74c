// Operators and built-in functions on values, shared by the interpreters and the virtual machine.
module Operators {
  import opened Values

  datatype StrictOp = Lt | Le | Gt | Ge | Eq | Ne | Add | Sub | Mul | Div
  datatype BinOp = And | Or | Strict(op: StrictOp)
  datatype UnOp = Not | Neg
  datatype Builtin = IsEmpty | Exists | In | Contains | Get

  function BuiltinNamed(name: string): Option<Builtin> {
    if name == "isEmpty" then Some(IsEmpty)
    else if name == "exists" then Some(Exists)
    else if name == "in" then Some(In)
    else if name == "contains" then Some(Contains)
    else if name == "get" then Some(Get)
    else None
  }

  // Two operands brought to a common kind: 64-bit integers unless one of them is a double.
  datatype Operands = Ints(l: int64, r: int64) | Doubles(x: Float64, y: Float64) | NotNumbers

  predicate IsNumber(v: Value) {
    v.Int? || v.Long? || v.Double?
  }

  function IntOf(v: Value): int64
    requires v.Int? || v.Long?
  {
    if v.Int? then v.i else v.l
  }

  function DoubleOf(v: Value, fl: FloatOps): Float64
    requires IsNumber(v)
  {
    if v.Double? then v.d else fl.ofInt(IntOf(v))
  }

  function Normalize(left: Value, right: Value, fl: FloatOps): Operands {
    if !IsNumber(left) || !IsNumber(right) then NotNumbers
    else if left.Double? || right.Double? then Doubles(DoubleOf(left, fl), DoubleOf(right, fl))
    else Ints(IntOf(left), IntOf(right))
  }

  predicate StringLess(a: string, b: string) {
    if |b| == 0 then false
    else if |a| == 0 then true
    else a[0] < b[0] || (a[0] == b[0] && StringLess(a[1..], b[1..]))
  }

  function CompareStrings(op: StrictOp, a: string, b: string): Result<bool> {
    match op
    case Lt => Ok(StringLess(a, b))
    case Le => Ok(!StringLess(b, a))
    case Gt => Ok(StringLess(b, a))
    case Ge => Ok(!StringLess(a, b))
    case _ => Err(UnsupportedOperator)
  }

  function CompareNumbers(op: StrictOp, n: Operands, fl: FloatOps): Result<bool>
    requires !n.NotNumbers?
  {
    match op
    case Lt => Ok(if n.Ints? then n.l < n.r else fl.less(n.x, n.y))
    case Le => Ok(if n.Ints? then n.l <= n.r else fl.lessEq(n.x, n.y))
    case Gt => Ok(if n.Ints? then n.l > n.r else fl.less(n.y, n.x))
    case Ge => Ok(if n.Ints? then n.l >= n.r else fl.lessEq(n.y, n.x))
    case _ => Err(UnsupportedOperator)
  }

  // A null operand makes every ordered comparison false.
  function OrderedCompare(op: StrictOp, left: Value, right: Value, fl: FloatOps): Result<bool> {
    if left.Null? || right.Null? then Ok(false)
    else if left.Str? then
      if right.Str? then CompareStrings(op, left.s, right.s) else Err(TypeMismatch)
    else
      var n := Normalize(left, right, fl);
      if n.NotNumbers? then Err(TypeMismatch) else CompareNumbers(op, n, fl)
  }

  // Containers are never equal to anything, not even to themselves.
  predicate ValuesEqual(left: Value, right: Value, fl: FloatOps) {
    if left.Null? || right.Null? then left.Null? && right.Null?
    else if left.Bool? then right.Bool? && left.b == right.b
    else if left.Str? then right.Str? && left.s == right.s
    else
      match Normalize(left, right, fl)
      case NotNumbers => false
      case Doubles(x, y) => fl.equal(x, y)
      case Ints(l, r) => l == r
  }

  function DoubleArithmetic(op: StrictOp, x: Float64, y: Float64, fl: FloatOps): Result<Value> {
    match op
    case Add => Ok(Double(fl.add(x, y)))
    case Sub => Ok(Double(fl.sub(x, y)))
    case Mul => Ok(Double(fl.mul(x, y)))
    case Div => if fl.equal(y, fl.ofInt(0)) then Err(DivisionByZero) else Ok(Double(fl.div(x, y)))
    case _ => Err(UnsupportedOperator)
  }

  // Integer arithmetic always yields an int64, whatever the kinds of the operands.
  function IntArithmetic(op: StrictOp, l: int64, r: int64): Result<Value> {
    match op
    case Add => Ok(Long(Wrap(l + r)))
    case Sub => Ok(Long(Wrap(l - r)))
    case Mul => Ok(Long(Wrap(l * r)))
    case Div => if r == 0 then Err(DivisionByZero) else Ok(Long(Wrap(TruncatingQuotient(l, r))))
    case _ => Err(UnsupportedOperator)
  }

  function Arithmetic(op: StrictOp, left: Value, right: Value, fl: FloatOps): Result<Value> {
    if left.Null? || right.Null? then Ok(Null)
    else
      match Normalize(left, right, fl)
      case NotNumbers => Err(TypeMismatch)
      case Doubles(x, y) => DoubleArithmetic(op, x, y, fl)
      case Ints(l, r) => IntArithmetic(op, l, r)
  }

  function BinaryValue(op: StrictOp, left: Value, right: Value, fl: FloatOps): Result<Value> {
    match op
    case Eq => Ok(Bool(ValuesEqual(left, right, fl)))
    case Ne => Ok(Bool(!ValuesEqual(left, right, fl)))
    case Lt | Le | Gt | Ge =>
      var b :- OrderedCompare(op, left, right, fl);
      Ok(Bool(b))
    case Add | Sub | Mul | Div => Arithmetic(op, left, right, fl)
  }

  // `!null` is false, and `-null` is null.
  function UnaryValue(op: UnOp, v: Value, fl: FloatOps): Result<Value> {
    match op
    case Not =>
      if v.Null? then Ok(Bool(false)) else if v.Bool? then Ok(Bool(!v.b)) else Err(TypeMismatch)
    case Neg =>
      match v
      case Null => Ok(Null)
      case Int(i) => Ok(Int(Wrap(0 - i)))
      case Long(l) => Ok(Long(Wrap(0 - l)))
      case Double(d) => Ok(Double(fl.neg(d)))
      case _ => Err(TypeMismatch)
  }

  predicate OccursAt(t: string, s: string, i: nat) {
    i + |t| <= |s| && s[i..i + |t|] == t
  }

  predicate Substring(t: string, s: string) {
    exists i | 0 <= i <= |s| :: OccursAt(t, s, i)
  }

  predicate ContainsValue(container: Value, item: Value, fl: FloatOps) {
    match container
    case Str(s) => item.Str? && Substring(item.s, s)
    case List(vs) => exists k | 0 <= k < |vs| :: ValuesEqual(vs[k], item, fl)
    case _ => false
  }

  function GetEntry(container: Value, key: Value): Result<Value> {
    if !key.Str? || !container.Map? then Err(TypeMismatch)
    else Ok(if key.s in container.entries then container.entries[key.s] else Null)
  }

  // The number of arguments below which indexing the argument slice panics.
  function MinArgs(f: Builtin): nat {
    match f
    case IsEmpty | Exists | In => 1
    case Contains | Get => 2
  }

  function BuiltinValue(f: Builtin, args: seq<Value>, fl: FloatOps): Result<Value> {
    if |args| < MinArgs(f) then Err(InternalPanic)
    else
      match f
      case IsEmpty =>
        var v := args[0];
        Ok(Bool(v.Null? || (v.Str? && v.s == "") || (v.List? && v.items == []) || (v.Map? && v.entries == map[])))
      case Exists => Ok(Bool(!args[0].Null?))
      case In => Ok(Bool(exists k | 1 <= k < |args| :: ValuesEqual(args[0], args[k], fl)))
      case Contains => Ok(Bool(ContainsValue(args[0], args[1], fl)))
      case Get => GetEntry(args[0], args[1])
  }
}
