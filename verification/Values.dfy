// The run-time values of rule expressions, the error codes evaluation can report, and the
// floating-point operations the engine relies on.
module Values {

  // Error codes of ValidationError. The source reports both execution budgets under one code and
  // tells them apart by the error's field name ("steps" or "stack"); here they are two codes.
  // InternalPanic also stands for a run-time panic that no one recovers.
  datatype ErrorCode =
    | FactorRefNotFound | FactorRefAmbiguous | FactorRefInvalid | FieldNotFound | TypeMismatch
    | DefinitionInvalid | ExpressionInvalid | UnknownIdentifier | UnsupportedOperator
    | UnknownFunction | InvalidArgumentCount | DivisionByZero | StepBudget | StackBudget
    | ExecutionCancelled
    | InternalPanic

  datatype Option<+T> = None | Some(value: T)

  datatype Result<+T> = Ok(value: T) | Err(code: ErrorCode) {
    predicate IsFailure() { Err? }

    function PropagateFailure<U>(): Result<U>
      requires Err?
    {
      Err(code)
    }

    function Extract(): T
      requires Ok?
    {
      value
    }
  }

  const TWO63: int := 0x8000_0000_0000_0000
  const TWO64: int := 0x1_0000_0000_0000_0000

  // Go's int and int64 are both 64 bits wide here.
  type int64 = x: int | -TWO63 <= x < TWO63

  // Two's-complement wrap-around of Go's integer arithmetic.
  function Wrap(x: int): (r: int64)
    ensures -TWO63 <= x < TWO63 ==> r == x
    ensures (x - r) % TWO64 == 0
  {
    (x + TWO63) % TWO64 - TWO63
  }

  // Go's integer division truncates toward zero; Dafny's rounds so that the remainder is not negative.
  function TruncatingQuotient(a: int, b: int): (q: int)
    requires b != 0
  {
    var m := (if a < 0 then -a else a) / (if b < 0 then -b else b);
    if (a < 0) == (b < 0) then m else -m
  }

  // A double is known only by its bit pattern; what the operations do with it is a parameter.
  datatype Float64 = Float64(bits: nat)

  // The text `%#v` prints for a number inside a container: a decimal integer, or something else.
  datatype NumberText = Whole(n: int) | Other(text: string)

  datatype FloatOps = FloatOps(
    add: (Float64, Float64) -> Float64,
    sub: (Float64, Float64) -> Float64,
    mul: (Float64, Float64) -> Float64,
    div: (Float64, Float64) -> Float64,
    neg: Float64 -> Float64,
    less: (Float64, Float64) -> bool,
    lessEq: (Float64, Float64) -> bool,
    equal: (Float64, Float64) -> bool,
    ofInt: int64 -> Float64,
    text: Float64 -> NumberText)

  datatype Value =
    | Null
    | Bool(b: bool)
    | Str(s: string)
    | Int(i: int64)
    | Long(l: int64)
    | Double(d: Float64)
    | List(items: seq<Value>)
    | Map(entries: map<string, Value>)

  // The evaluation context maps factor codes to what the factors returned.
  type Context = map<string, Value>

  datatype Env = Env(ctx: Context, fl: FloatOps)

  predicate Truthy(v: Value) {
    v.Bool? && v.b
  }
}
