// What connectives, conditionals and built-ins compute, as laws of rules.
module RuleLaws {
  import opened Values
  import opened Operators
  import opened OperatorLaws
  import opened Schema
  import opened Ast
  import opened Interpreter

  predicate Yields(e: Expr, env: Env, v: Value) {
    EvalExpr(e, env) == Ok(v)
  }

  function And2(l: Expr, r: Expr): Expr { BinaryExpr(Binary(And), l, r) }

  function Or2(l: Expr, r: Expr): Expr { BinaryExpr(Binary(Or), l, r) }

  function Not1(x: Expr): Expr { UnaryExpr(Bang, x) }

  // Connectives and conditionals

  // A conjunction is true exactly if both operands are, and false if the left one is a value that is not
  // true; what the right one does then, even an error, does not matter.
  lemma ConjunctionExact(l: Expr, r: Expr, env: Env)
    ensures Yields(And2(l, r), env, Bool(true)) <==> Yields(l, env, Bool(true)) && Yields(r, env, Bool(true))
    ensures Yields(And2(l, r), env, Bool(false)) <==>
            EvalExpr(l, env).Ok? &&
            (!Yields(l, env, Bool(true)) || (EvalExpr(r, env).Ok? && !Yields(r, env, Bool(true))))
    ensures EvalExpr(And2(l, r), env).Err? ==>
              EvalExpr(And2(l, r), env) == if EvalExpr(l, env).Err? then EvalExpr(l, env) else EvalExpr(r, env)
    ensures EvalExpr(And2(l, r), env).Ok? ==> EvalExpr(And2(l, r), env).value.Bool?
  {
  }

  // Where the operands are booleans, negation turns one connective into the other.
  lemma DeMorgan(l: Expr, r: Expr, env: Env)
    requires EvalExpr(l, env).Ok? ==> EvalExpr(l, env).value.Bool?
    requires EvalExpr(r, env).Ok? ==> EvalExpr(r, env).value.Bool?
    ensures EvalExpr(Not1(And2(l, r)), env) == EvalExpr(Or2(Not1(l), Not1(r)), env)
    ensures EvalExpr(Not1(Or2(l, r)), env) == EvalExpr(And2(Not1(l), Not1(r)), env)
  {
    NotMeans(l, env);
    NotMeans(r, env);
    NotMeans(And2(l, r), env);
    NotMeans(Or2(l, r), env);
  }

  lemma NotMeans(x: Expr, env: Env)
    ensures EvalExpr(x, env).Ok? && EvalExpr(x, env).value.Bool? ==>
              Yields(Not1(x), env, Bool(!EvalExpr(x, env).value.b))
    ensures EvalExpr(x, env).Err? ==> EvalExpr(Not1(x), env) == EvalExpr(x, env)
  {
  }

  // A disjunction of anything: true if one operand that is reached is true.
  lemma DisjunctionExact(l: Expr, r: Expr, env: Env)
    ensures Yields(Or2(l, r), env, Bool(true)) <==>
            Yields(l, env, Bool(true)) || (EvalExpr(l, env).Ok? && Yields(r, env, Bool(true)))
    ensures Yields(Or2(l, r), env, Bool(false)) <==>
            EvalExpr(l, env).Ok? && EvalExpr(r, env).Ok? && !Yields(l, env, Bool(true)) && !Yields(r, env, Bool(true))
    ensures EvalExpr(Or2(l, r), env).Ok? ==> EvalExpr(Or2(l, r), env).value.Bool?
  {
  }

  // A conditional is its first arm if the condition is true, and its second arm if it is anything else.
  lemma ConditionalExact(c: Expr, t: Expr, f: Expr, env: Env)
    ensures Yields(c, env, Bool(true)) ==> EvalExpr(ConditionalExpr(c, t, f), env) == EvalExpr(t, env)
    ensures EvalExpr(c, env).Ok? && !Yields(c, env, Bool(true)) ==>
              EvalExpr(ConditionalExpr(c, t, f), env) == EvalExpr(f, env)
    ensures EvalExpr(c, env).Err? ==> EvalExpr(ConditionalExpr(c, t, f), env) == EvalExpr(c, env)
  {
  }

  // A minus in front of a whole number is the number subtracted from zero, in its own kind.
  lemma MinusMeans(x: Expr, env: Env)
    requires EvalExpr(x, env).Ok? && WholeNumber(EvalExpr(x, env).value)
    ensures var r, d := EvalExpr(UnaryExpr(MINUS, x), env),
                        EvalExpr(BinaryExpr(MINUS, LiteralExpr(Int(0), IntT), x), env);
            r.Ok? && d.Ok? && WholeNumber(r.value) && d.value == Long(IntOf(r.value)) &&
            (r.value.Int? <==> EvalExpr(x, env).value.Int?)
  {
    NegatesExactly(EvalExpr(x, env).value, env.fl);
    assert EvalExpr(LiteralExpr(Int(0), IntT), env) == Ok(Int(0));
  }

  // Calls

  function Call1(name: string, x: Expr): Expr { FunctionCallExpr(name, [x]) }

  function Call2(name: string, x: Expr, y: Expr): Expr { FunctionCallExpr(name, [x, y]) }

  lemma OneArgument(x: Expr, env: Env)
    ensures EvalExprs([x], env) == (match EvalExpr(x, env) case Ok(v) => Ok([v]) case Err(c) => Err(c))
  {
    var es := [x];
    assert es[..|es| - 1] == [] && EvalExprs([], env) == Ok([]) && es[|es| - 1] == x;
    if EvalExpr(x, env).Ok? { assert [] + [EvalExpr(x, env).value] == [EvalExpr(x, env).value]; }
  }

  lemma TwoArguments(x: Expr, y: Expr, env: Env)
    requires EvalExpr(x, env).Ok? && EvalExpr(y, env).Ok?
    ensures EvalExprs([x, y], env) == Ok([EvalExpr(x, env).value, EvalExpr(y, env).value])
  {
    OneArgument(x, env);
    var es, v, w := [x, y], EvalExpr(x, env).value, EvalExpr(y, env).value;
    assert es[..|es| - 1] == [x] && es[|es| - 1] == y && [v] + [w] == [v, w];
  }

  // `exists` is false exactly on null.
  lemma ExistsExact(x: Expr, env: Env)
    requires EvalExpr(x, env).Ok?
    ensures Yields(Call1("exists", x), env, Bool(false)) <==> Yields(x, env, Null)
    ensures Yields(Call1("exists", x), env, Bool(true)) <==> !Yields(x, env, Null)
  {
    OneArgument(x, env);
  }

  // `isEmpty` is true exactly on null, the empty string, the empty list and the empty map.
  lemma IsEmptyExact(x: Expr, env: Env)
    requires EvalExpr(x, env).Ok?
    ensures Yields(Call1("isEmpty", x), env, Bool(true)) <==>
            Yields(x, env, Null) || Yields(x, env, Str("")) || Yields(x, env, List([])) || Yields(x, env, Map(map[]))
    ensures Yields(Call1("isEmpty", x), env, Bool(true)) || Yields(Call1("isEmpty", x), env, Bool(false))
  {
    OneArgument(x, env);
  }

  // `in` with one candidate is equality.
  lemma InOne(x: Expr, y: Expr, env: Env)
    requires EvalExpr(x, env).Ok? && EvalExpr(y, env).Ok?
    ensures EvalExpr(Call2("in", x, y), env) == EvalExpr(BinaryExpr(Binary(Strict(Eq)), x, y), env)
  {
    TwoArguments(x, y, env);
    var v, w := EvalExpr(x, env).value, EvalExpr(y, env).value;
    InCandidate(v, w, env.fl);
  }

  lemma InCandidate(v: Value, w: Value, fl: FloatOps)
    ensures BuiltinValue(In, [v, w], fl) == BinaryValue(Eq, v, w, fl)
  {
    assert [v, w][1] == w;
  }

  lemma {:induction false} ArgumentsJoined(a: seq<Expr>, b: seq<Expr>, env: Env)
    ensures EvalExprs(a, env).Ok? && EvalExprs(b, env).Ok? ==>
              EvalExprs(a + b, env) == Ok(EvalExprs(a, env).value + EvalExprs(b, env).value)
    ensures EvalExprs(a + b, env).Ok? ==> EvalExprs(a, env).Ok? && EvalExprs(b, env).Ok?
  {
    if b == [] {
      assert a + b == a;
      if EvalExprs(a, env).Ok? { assert EvalExprs(a, env).value + [] == EvalExprs(a, env).value; }
    } else {
      ArgumentsJoined(a, b[..|b| - 1], env);
      assert (a + b)[..|a + b| - 1] == a + b[..|b| - 1] && (a + b)[|a + b| - 1] == b[|b| - 1];
      if EvalExprs(a, env).Ok? && EvalExprs(b, env).Ok? {
        var v, vs, w := EvalExprs(a, env).value, EvalExprs(b[..|b| - 1], env).value, EvalExpr(b[|b| - 1], env).value;
        assert EvalExprs(b, env).value == vs + [w] && (v + vs) + [w] == v + (vs + [w]);
      }
    }
  }

  function InCall(x: Expr, candidates: seq<Expr>): Expr {
    FunctionCallExpr("in", [x] + candidates)
  }

  // `in` over more candidates is the disjunction of `in` over some and `in` over the rest.
  lemma InSplits(x: Expr, a: seq<Expr>, b: seq<Expr>, env: Env)
    requires EvalExpr(x, env).Ok? && EvalExprs(a, env).Ok? && EvalExprs(b, env).Ok?
    ensures EvalExpr(InCall(x, a + b), env) == EvalExpr(Or2(InCall(x, a), InCall(x, b)), env)
  {
    OneArgument(x, env);
    ArgumentsJoined([x], a, env);
    ArgumentsJoined([x], b, env);
    ArgumentsJoined(a, b, env);
    ArgumentsJoined([x], a + b, env);
    InDisjunction(EvalExpr(x, env).value, EvalExprs(a, env).value, EvalExprs(b, env).value, env.fl);
  }

  lemma InDisjunction(v: Value, a: seq<Value>, b: seq<Value>, fl: FloatOps)
    ensures BuiltinValue(In, [v] + a, fl).Ok? && BuiltinValue(In, [v] + a, fl).value.Bool?
    ensures BuiltinValue(In, [v] + b, fl).Ok? && BuiltinValue(In, [v] + b, fl).value.Bool?
    ensures BuiltinValue(In, [v] + (a + b), fl) ==
            Ok(Bool(BuiltinValue(In, [v] + a, fl).value.b || BuiltinValue(In, [v] + b, fl).value.b))
  {
    InMembers(v, a, fl);
    InMembers(v, b, fl);
    InMembers(v, a + b, fl);
  }

  lemma InMembers(v: Value, ws: seq<Value>, fl: FloatOps)
    ensures BuiltinValue(In, [v] + ws, fl) == Ok(Bool(exists w <- ws :: ValuesEqual(v, w, fl)))
  {
    var args := [v] + ws;
    if w :| w in ws && ValuesEqual(v, w, fl) {
      var k :| 0 <= k < |ws| && ws[k] == w;
      assert args[k + 1] == w;
    }
    forall k | 1 <= k < |args| ensures args[k] == ws[k - 1] && args[k] in ws {}
  }

  // `in` without candidates, which only a call made by hand can be, is false.
  lemma InNone(x: Expr, env: Env)
    requires EvalExpr(x, env).Ok?
    ensures Yields(InCall(x, []), env, Bool(false))
  {
    assert [x] + [] == [x];
    OneArgument(x, env);
  }

  // `contains` of a list is `in` over its items, as far as equality of doubles is symmetric.
  lemma ContainsIsIn(items: seq<Expr>, x: Expr, env: Env)
    requires forall y, z :: env.fl.equal(y, z) == env.fl.equal(z, y)
    requires EvalExprs(items, env).Ok? && EvalExpr(x, env).Ok?
    ensures EvalExpr(Call2("contains", ListExpr(items), x), env) == EvalExpr(InCall(x, items), env)
  {
    TwoArguments(ListExpr(items), x, env);
    OneArgument(x, env);
    ArgumentsJoined([x], items, env);
    var vs, v := EvalExprs(items, env).value, EvalExpr(x, env).value;
    InMembers(v, vs, env.fl);
    forall w | w in vs ensures ValuesEqual(v, w, env.fl) == ValuesEqual(w, v, env.fl) {
      EqualitySymmetric(v, w, env.fl);
    }
    ContainsMembers(vs, v, env.fl);
  }

  lemma ContainsMembers(vs: seq<Value>, v: Value, fl: FloatOps)
    ensures BuiltinValue(Contains, [List(vs), v], fl) == Ok(Bool(exists w <- vs :: ValuesEqual(w, v, fl)))
  {
    assert BuiltinValue(Contains, [List(vs), v], fl) == Ok(Bool(ContainsValue(List(vs), v, fl)));
    if w :| w in vs && ValuesEqual(w, v, fl) {
      var k :| 0 <= k < |vs| && vs[k] == w;
    }
  }

  // `contains` of any value that is a list: some item equals the other argument.
  lemma ContainsList(x: Expr, y: Expr, env: Env)
    requires EvalExpr(x, env).Ok? && EvalExpr(y, env).Ok? && EvalExpr(x, env).value.List?
    ensures Yields(Call2("contains", x, y), env, Bool(true)) <==>
            exists w <- EvalExpr(x, env).value.items :: Exactly(Eq, w, EvalExpr(y, env).value, env.fl)
  {
    TwoArguments(x, y, env);
    ContainsMembers(EvalExpr(x, env).value.items, EvalExpr(y, env).value, env.fl);
  }

  // `contains` of a string: the string is something, the other string, and something. Of anything else, and
  // with anything else in a string, it is false.
  lemma ContainsText(x: Expr, y: Expr, env: Env)
    requires EvalExpr(x, env).Ok? && EvalExpr(y, env).Ok? && !EvalExpr(x, env).value.List?
    ensures var v, w := EvalExpr(x, env).value, EvalExpr(y, env).value;
            Yields(Call2("contains", x, y), env, Bool(true)) <==>
            v.Str? && w.Str? && exists p, q :: v.s == p + (w.s + q)
    ensures Yields(Call2("contains", x, y), env, Bool(true)) || Yields(Call2("contains", x, y), env, Bool(false))
  {
    TwoArguments(x, y, env);
    var v, w := EvalExpr(x, env).value, EvalExpr(y, env).value;
    assert BuiltinValue(Contains, [v, w], env.fl) == Ok(Bool(ContainsValue(v, w, env.fl)));
    if v.Str? && w.Str? { SubstringExact(w.s, v.s); }
  }

  lemma SubstringExact(t: string, s: string)
    ensures Substring(t, s) <==> exists p, q :: s == p + (t + q)
  {
    if i :| 0 <= i <= |s| && OccursAt(t, s, i) {
      assert s == s[..i] + (s[i..i + |t|] + s[i + |t|..]);
    }
    if p, q :| s == p + (t + q) {
      assert s[|p|..|p| + |t|] == t;
      assert OccursAt(t, s, |p|);
    }
  }

  // `get` fails exactly if its container is no map or its key no string.
  lemma GetFails(x: Expr, y: Expr, env: Env)
    requires EvalExpr(x, env).Ok? && EvalExpr(y, env).Ok?
    ensures EvalExpr(Call2("get", x, y), env).Err? <==> !EvalExpr(x, env).value.Map? || !EvalExpr(y, env).value.Str?
    ensures EvalExpr(Call2("get", x, y), env).Err? ==> EvalExpr(Call2("get", x, y), env) == Err(TypeMismatch)
  {
    TwoArguments(x, y, env);
  }

  // The last entry of a map literal under a key.
  function LastUnder(es: seq<MapEntry>, k: string): Option<Expr> {
    if es == [] then None
    else if es[|es| - 1].key == k then Some(es[|es| - 1].value)
    else LastUnder(es[..|es| - 1], k)
  }

  lemma {:induction false} EntriesHold(es: seq<MapEntry>, k: string, env: Env)
    requires EvalMapEntries(es, env).Ok?
    ensures var kvs := EvalMapEntries(es, env).value;
            match LastUnder(es, k)
            case Some(x) => k in kvs && Yields(x, env, kvs[k])
            case None => k !in kvs
  {
    if es != [] { EntriesHold(es[..|es| - 1], k, env); }
  }

  lemma {:induction false} LastUnderExact(es: seq<MapEntry>, k: string)
    ensures match LastUnder(es, k)
            case Some(x) =>
              exists i | 0 <= i < |es| :: es[i] == MapEntry(k, x) && forall j | i < j < |es| :: es[j].key != k
            case None => forall j | 0 <= j < |es| :: es[j].key != k
  {
    if es != [] && es[|es| - 1].key != k {
      LastUnderExact(es[..|es| - 1], k);
    }
  }

  // `get` from a map literal: the value last written under the key, and null if there is none.
  lemma GetFromLiteral(es: seq<MapEntry>, k: string, env: Env)
    requires EvalExpr(MapExpr(es), env).Ok?
    ensures var r := EvalExpr(Call2("get", MapExpr(es), LiteralExpr(Str(k), StringT)), env);
            match LastUnder(es, k)
            case Some(x) => r == EvalExpr(x, env)
            case None => r == Ok(Null)
  {
    EntriesHold(es, k, env);
    TwoArguments(MapExpr(es), LiteralExpr(Str(k), StringT), env);
  }

  // Other names are no functions.
  lemma OtherNames(name: string, args: seq<Expr>, env: Env)
    ensures EvalExpr(FunctionCallExpr(name, args), env) == Err(UnknownFunction) ||
            name in {"exists", "isEmpty", "in", "contains", "get"}
  {
  }
}
