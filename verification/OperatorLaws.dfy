// Laws of the operators on values, stated without looking at how they are computed.
module OperatorLaws {
  import opened Values
  import opened Operators

  // Strings are compared in a strict total order.
  lemma {:induction false} StringsOrdered(a: string, b: string)
    ensures !(StringLess(a, b) && StringLess(b, a))
    ensures StringLess(a, b) || StringLess(b, a) || a == b
    ensures a == b ==> !StringLess(a, b)
  {
    if a != "" && b != "" {
      StringsOrdered(a[1..], b[1..]);
      assert a == [a[0]] + a[1..] && b == [b[0]] + b[1..];
    }
  }

  lemma {:induction false} StringsTransitive(a: string, b: string, c: string)
    requires StringLess(a, b) && StringLess(b, c)
    ensures StringLess(a, c)
  {
    if a != "" && a[0] == b[0] == c[0] { StringsTransitive(a[1..], b[1..], c[1..]); }
  }

  // A string is less than another if, behind what they share, it ends first or has the smaller character.
  lemma {:induction false} StringLessExact(a: string, b: string)
    ensures StringLess(a, b) <==>
            exists n: nat {:trigger Shared(a, b, n)} :: n < |b| && Shared(a, b, n) && (n == |a| || a[n] < b[n])
  {
    SharedHeads(a, b);
    if b != "" { assert Shared(a, b, 0); }
    if a != "" && b != "" && a[0] == b[0] {
      StringLessExact(a[1..], b[1..]);
      if n: nat :| n < |b[1..]| && Shared(a[1..], b[1..], n) && (n == |a[1..]| || a[1..][n] < b[1..][n]) {
        assert a[..n + 1] == [a[0]] + a[1..][..n] && b[..n + 1] == [b[0]] + b[1..][..n];
        assert Shared(a, b, n + 1);
      }
      if n: nat :| n < |b| && Shared(a, b, n) && (n == |a| || a[n] < b[n]) {
        assert n > 0 && a[1..][..n - 1] == a[..n][1..] && b[1..][..n - 1] == b[..n][1..];
        assert Shared(a[1..], b[1..], n - 1);
      }
    }
  }

  lemma SharedHeads(a: string, b: string)
    ensures forall n: nat | Shared(a, b, n) && n > 0 :: a != "" && b != "" && a[0] == b[0]
  {
    forall n: nat | Shared(a, b, n) && n > 0 ensures a != "" && b != "" && a[0] == b[0] { assert a[0] == a[..n][0]; }
  }

  predicate Shared(a: string, b: string, n: nat) {
    n <= |a| && n <= |b| && a[..n] == b[..n]
  }

  predicate Exactly(op: StrictOp, l: Value, r: Value, fl: FloatOps) {
    BinaryValue(op, l, r, fl) == Ok(Bool(true))
  }

  // Values whose comparison needs no floating point: two whole numbers of any kind, or two strings.
  predicate Discrete(l: Value, r: Value) {
    ((l.Int? || l.Long?) && (r.Int? || r.Long?)) || (l.Str? && r.Str?)
  }

  // On them, exactly one of <, == and > holds, and the other operators are their complements.
  lemma ComparisonsAgree(l: Value, r: Value, fl: FloatOps)
    requires Discrete(l, r)
    ensures Exactly(Lt, l, r, fl) || Exactly(Eq, l, r, fl) || Exactly(Gt, l, r, fl)
    ensures !(Exactly(Lt, l, r, fl) && Exactly(Eq, l, r, fl)) && !(Exactly(Lt, l, r, fl) && Exactly(Gt, l, r, fl))
    ensures !(Exactly(Eq, l, r, fl) && Exactly(Gt, l, r, fl))
    ensures Exactly(Le, l, r, fl) <==> !Exactly(Gt, l, r, fl)
    ensures Exactly(Ge, l, r, fl) <==> !Exactly(Lt, l, r, fl)
    ensures Exactly(Ne, l, r, fl) <==> !Exactly(Eq, l, r, fl)
    ensures Exactly(Lt, l, r, fl) <==> Exactly(Gt, r, l, fl)
  {
    if l.Str? { StringsOrdered(l.s, r.s); }
  }

  // On them < is transitive, and == can be replaced in it on either side.
  lemma ComparisonsTransitive(a: Value, b: Value, c: Value, fl: FloatOps)
    requires Discrete(a, b) && Discrete(b, c)
    ensures Exactly(Lt, a, b, fl) && Exactly(Le, b, c, fl) ==> Exactly(Lt, a, c, fl)
    ensures Exactly(Le, a, b, fl) && Exactly(Lt, b, c, fl) ==> Exactly(Lt, a, c, fl)
    ensures Exactly(Le, a, b, fl) && Exactly(Le, b, c, fl) ==> Exactly(Le, a, c, fl)
  {
    if a.Str? {
      StringsOrdered(a.s, b.s);
      StringsOrdered(b.s, c.s);
      StringsOrdered(a.s, c.s);
      if StringLess(a.s, b.s) && StringLess(b.s, c.s) { StringsTransitive(a.s, b.s, c.s); }
    }
  }

  // Exchanging the operands exchanges < with > and <= with >=, on all values and also where comparing fails.
  lemma ComparisonsMirror(l: Value, r: Value, fl: FloatOps)
    ensures BinaryValue(Lt, l, r, fl) == BinaryValue(Gt, r, l, fl)
    ensures BinaryValue(Le, l, r, fl) == BinaryValue(Ge, r, l, fl)
  {
    if l.Str? && !r.Null? && !r.Str? { assert Normalize(r, l, fl).NotNumbers?; }
  }

  // Next to null every comparison is false, so neither complement law survives there.
  lemma NullCompares(v: Value, fl: FloatOps)
    ensures forall op | op in {Lt, Le, Gt, Ge} ::
              BinaryValue(op, Null, v, fl) == BinaryValue(op, v, Null, fl) == Ok(Bool(false))
    ensures Exactly(Eq, Null, v, fl) <==> v.Null?
  {
  }

  // Comparing fails exactly on operands of which one is no number, unless one is null or both are strings.
  lemma ComparisonFails(op: StrictOp, l: Value, r: Value, fl: FloatOps)
    requires op in {Lt, Le, Gt, Ge}
    ensures BinaryValue(op, l, r, fl).Err? <==>
            !l.Null? && !r.Null? && !(l.Str? && r.Str?) && !(IsNumber(l) && IsNumber(r))
  {
  }

  // Equality is symmetric as far as it is on doubles, never fails, and never holds between containers.
  lemma EqualitySymmetric(l: Value, r: Value, fl: FloatOps)
    requires forall x, y :: fl.equal(x, y) == fl.equal(y, x)
    ensures ValuesEqual(l, r, fl) == ValuesEqual(r, l, fl)
    ensures l.List? || l.Map? ==> !ValuesEqual(l, r, fl)
  {
  }

  predicate WholeNumber(v: Value) { v.Int? || v.Long? }

  // Sums, differences and products of whole numbers are right up to a multiple of two to the 64th, and right
  // if they fit.
  lemma WrapsExactly(op: StrictOp, l: Value, r: Value, fl: FloatOps)
    requires WholeNumber(l) && WholeNumber(r) && op in {Add, Sub, Mul}
    ensures var exact :=
              if op == Add then IntOf(l) + IntOf(r) else if op == Sub then IntOf(l) - IntOf(r) else IntOf(l) * IntOf(r);
            var v := BinaryValue(op, l, r, fl);
            v.Ok? && v.value.Long? && (exact - v.value.l) % TWO64 == 0 &&
            (-TWO63 <= exact < TWO63 ==> v.value.l == exact)
  {
  }

  // The quotient rounded toward zero: what is left over is smaller than the divisor and has the dividend's sign.
  predicate IsQuotient(q: int, a: int, b: int) {
    var rest := a - q * b;
    (if rest < 0 then -rest else rest) < (if b < 0 then -b else b) && (rest == 0 || (rest < 0) == (a < 0))
  }

  lemma {:induction false} AtLeast(m: nat, y: int)
    requires y > 0
    ensures m * y >= m && (y >= 2 && m > 0 ==> m * y > m)
  {
    if m > 0 {
      AtLeast(m - 1, y);
      assert m * y == (m - 1) * y + y;
    }
  }

  lemma Divided(x: nat, y: int) returns (m: nat, rest: nat)
    requires y > 0
    ensures m == x / y && x == m * y + rest && rest < y && m <= x && (y >= 2 && x > 0 ==> m < x)
  {
    m, rest := x / y, x % y;
    AtLeast(m, y);
  }

  lemma QuotientExact(a: int, b: int)
    requires b != 0
    ensures IsQuotient(TruncatingQuotient(a, b), a, b)
  {
    var x, y := if a < 0 then -a else a, if b < 0 then -b else b;
    var m, rest := Divided(x, y);
    QuotientSigns(a, b, m, rest);
  }

  lemma QuotientSigns(a: int, b: int, m: int, rest: nat)
    requires b != 0 && rest < if b < 0 then -b else b
    requires (if a < 0 then -a else a) == m * (if b < 0 then -b else b) + rest
    ensures IsQuotient(if (a < 0) == (b < 0) then m else -m, a, b)
  {
    assert m * (-b) == -(m * b) && (-m) * b == -(m * b);
  }

  // Division of whole numbers fails exactly by zero, and truncates; only the least number by -1 wraps.
  lemma DividesExactly(l: Value, r: Value, fl: FloatOps)
    requires WholeNumber(l) && WholeNumber(r)
    ensures var v := BinaryValue(Div, l, r, fl);
            if IntOf(r) == 0 then v == Err(DivisionByZero)
            else v.Ok? && v.value.Long? &&
                 if IntOf(l) == -TWO63 && IntOf(r) == -1 then v.value.l == -TWO63
                 else IsQuotient(v.value.l, IntOf(l), IntOf(r))
  {
    var a, b := IntOf(l), IntOf(r);
    if b != 0 {
      QuotientExact(a, b);
      if !(a == -TWO63 && b == -1) { QuotientFits(a, b); }
    }
  }

  lemma QuotientFits(a: int64, b: int64)
    requires b != 0 && !(a == -TWO63 && b == -1)
    ensures -TWO63 <= TruncatingQuotient(a, b) < TWO63
  {
    var x: int := if a < 0 then 0 - a else a;
    var y: int := if b < 0 then 0 - b else b;
    var m, _ := Divided(x, y);
  }

  // Negation is subtraction from zero in the number's own kind.
  lemma NegatesExactly(v: Value, fl: FloatOps)
    requires WholeNumber(v)
    ensures var r := UnaryValue(Neg, v, fl);
            r.Ok? && WholeNumber(r.value) && (r.value.Int? <==> v.Int?) &&
            (IntOf(v) + IntOf(r.value)) % TWO64 == 0 && (IntOf(v) != -TWO63 ==> IntOf(r.value) == -IntOf(v)) &&
            BinaryValue(Sub, Int(0), v, fl) == Ok(Long(IntOf(r.value)))
  {
  }

  // Where the unary operators are null, where they fail, and what `!` does to booleans.
  lemma UnaryExact(v: Value, fl: FloatOps)
    ensures UnaryValue(Neg, v, fl) == Ok(Null) <==> v.Null?
    ensures UnaryValue(Neg, v, fl).Err? <==> !v.Null? && !IsNumber(v)
    ensures UnaryValue(Neg, v, fl).Err? ==> UnaryValue(Neg, v, fl) == Err(TypeMismatch)
    ensures v.Double? ==> UnaryValue(Neg, v, fl).value == Double(fl.neg(v.d))
    ensures UnaryValue(Not, v, fl).Err? <==> !v.Null? && !v.Bool?
    ensures UnaryValue(Not, v, fl).Err? ==> UnaryValue(Not, v, fl) == Err(TypeMismatch)
    ensures UnaryValue(Not, v, fl) == Ok(Bool(true)) <==> v == Bool(false)
    ensures UnaryValue(Not, v, fl) == Ok(Bool(false)) <==> v == Bool(true) || v.Null?
  {
  }

  // Negating twice gives the number back, wrapped or not.
  lemma NegatesTwice(v: Value, fl: FloatOps)
    requires WholeNumber(v)
    ensures UnaryValue(Neg, v, fl).Ok? && UnaryValue(Neg, UnaryValue(Neg, v, fl).value, fl) == Ok(v)
  {
  }

  // Without doubles, values are equal exactly if they are the same null, boolean or string, or whole numbers
  // of the same size.
  lemma EqualityExact(l: Value, r: Value, fl: FloatOps)
    requires !(IsNumber(l) && IsNumber(r) && (l.Double? || r.Double?))
    ensures BinaryValue(Eq, l, r, fl) == Ok(Bool(true)) || BinaryValue(Eq, l, r, fl) == Ok(Bool(false))
    ensures Exactly(Eq, l, r, fl) <==>
            (l == r && !l.List? && !l.Map?) || (WholeNumber(l) && WholeNumber(r) && IntOf(l) == IntOf(r))
    ensures Exactly(Ne, l, r, fl) <==> !Exactly(Eq, l, r, fl)
  {
  }

  // Whole numbers are compared by size, and strings by the order of strings.
  lemma ComparesBySize(l: Value, r: Value, fl: FloatOps)
    requires Discrete(l, r)
    ensures Exactly(Lt, l, r, fl) <==> if l.Str? then StringLess(l.s, r.s) else IntOf(l) < IntOf(r)
  {
  }

  // Where arithmetic is null, where it fails, and the kind of its results.
  lemma ArithmeticExact(op: StrictOp, l: Value, r: Value, fl: FloatOps)
    requires op in {Add, Sub, Mul, Div}
    ensures var v := BinaryValue(op, l, r, fl);
            (v == Ok(Null) <==> l.Null? || r.Null?) &&
            (v == Err(TypeMismatch) <==> !l.Null? && !r.Null? && !(IsNumber(l) && IsNumber(r))) &&
            (v == Err(DivisionByZero) <==>
               op.Div? && IsNumber(l) && IsNumber(r) &&
               if WholeNumber(l) && WholeNumber(r) then IntOf(r) == 0 else fl.equal(DoubleOf(r, fl), fl.ofInt(0))) &&
            (v.Err? ==> v.code.TypeMismatch? || v.code.DivisionByZero?) &&
            (v.Ok? ==> if l.Null? || r.Null? then v.value.Null?
                       else if WholeNumber(l) && WholeNumber(r) then v.value.Long? else v.value.Double?)
  {
  }

  // Mixed operands

  // The number n, whole or as the double that stands for it.
  predicate Shows(v: Value, n: int64, fl: FloatOps) {
    (WholeNumber(v) && IntOf(v) == n) || v == Double(fl.ofInt(n))
  }

  predicate Fits(n: int) { -TWO63 <= n < TWO63 }

  // Floating-point operations are exact on these two numbers, as they are on all of at most 53 bits.
  predicate ExactOn(fl: FloatOps, a: int64, b: int64) {
    var x, y := fl.ofInt(a), fl.ofInt(b);
    (Fits(a + b) ==> fl.add(x, y) == fl.ofInt(a + b)) &&
    (Fits(a - b) ==> fl.sub(x, y) == fl.ofInt(a - b)) &&
    (Fits(a * b) ==> fl.mul(x, y) == fl.ofInt(a * b)) &&
    (b != 0 && Fits(TruncatingQuotient(a, b)) && a == TruncatingQuotient(a, b) * b ==>
       fl.div(x, y) == fl.ofInt(TruncatingQuotient(a, b))) &&
    (fl.less(x, y) <==> a < b) && (fl.less(y, x) <==> b < a) &&
    (fl.lessEq(x, y) <==> a <= b) && (fl.lessEq(y, x) <==> b <= a) &&
    (fl.equal(x, y) <==> a == b) && (fl.equal(y, fl.ofInt(0)) <==> b == 0)
  }

  function Computed(op: StrictOp, a: int, b: int): int
    requires op in {Add, Sub, Mul, Div} && (op.Div? ==> b != 0)
  {
    if op.Add? then a + b else if op.Sub? then a - b else if op.Mul? then a * b else TruncatingQuotient(a, b)
  }

  // Then it makes no difference which of the operands are doubles: numbers are added, subtracted, multiplied
  // and divided as numbers are.
  lemma MixedArithmetic(op: StrictOp, l: Value, r: Value, a: int64, b: int64, fl: FloatOps)
    requires op in {Add, Sub, Mul, Div} && (op.Div? ==> b != 0 && a == TruncatingQuotient(a, b) * b)
    requires Shows(l, a, fl) && Shows(r, b, fl) && ExactOn(fl, a, b) && Fits(Computed(op, a, b))
    ensures var v := BinaryValue(op, l, r, fl); v.Ok? && Shows(v.value, Computed(op, a, b), fl)
  {
  }

  // And compared.
  lemma MixedComparison(l: Value, r: Value, a: int64, b: int64, fl: FloatOps)
    requires Shows(l, a, fl) && Shows(r, b, fl) && ExactOn(fl, a, b)
    ensures BinaryValue(Lt, l, r, fl) == Ok(Bool(a < b)) && BinaryValue(Le, l, r, fl) == Ok(Bool(a <= b))
    ensures BinaryValue(Gt, l, r, fl) == Ok(Bool(a > b)) && BinaryValue(Ge, l, r, fl) == Ok(Bool(a >= b))
    ensures BinaryValue(Eq, l, r, fl) == Ok(Bool(a == b)) && BinaryValue(Ne, l, r, fl) == Ok(Bool(a != b))
    ensures b == 0 ==> BinaryValue(Div, l, r, fl) == Err(DivisionByZero)
  {
  }
}
