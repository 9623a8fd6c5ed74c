// Two rules whose compiled programs do not do what the interpreter does.
module Divergence {
  import opened Values
  import opened Operators
  import opened Schema
  import opened Ast
  import Parser
  import opened Tokenizer
  import opened Printer
  import opened Minimality
  import opened Binder
  import opened FieldRules
  import opened Interpreter
  import B = Bound
  import opened Bytecode
  import opened Pools
  import opened Codegen
  import opened Folding
  import opened Compiler
  import opened Correctness
  import opened Snapshot
  import opened Pipeline

  const FLAG := ScalarInfo(BoolT)

  lemma FieldInterpreted(name: string, v: Value, env: Env)
    requires name != VALUE && "f" in env.ctx && env.ctx["f"].Map?
    requires v == if name in env.ctx["f"].entries then env.ctx["f"].entries[name] else Null
    ensures EvalExpr(Field(name), env) == Ok(v)
  {
    assert [name][1..] == [] && (name in env.ctx["f"].entries ==> Descend(v, []) == Some(v));
  }

  lemma FieldParses(name: string)
    requires name in {"a", "b", "c"}
    ensures ParsableRef(FactorRef("f", [name]))
  {
    assert ["f"] + [name] == ["f", name] && ["f", name][1..] == [name];
    assert Join([name]) == name && Join(["f", name]) == "f." + name;
  }

  // The rule `!(f.a && f.b)`

  const FLAGS: Registry := map["f" := map["a" := Scalar(BoolT), "b" := Scalar(BoolT)]]

  const NEGATED := UnaryExpr(Bang, BinaryExpr(Binary(And), Field("a"), Field("b")))

  const NEGATED_TEXT := "!(f.a && f.b)"

  const NEGATED_GAPS: seq<string> := ["", "", "", " ", " ", "", ""]

  function BoundConjunction(): B.Bound {
    B.Binary(And, BoundField("a", FLAG), BoundField("b", FLAG), ScalarInfo(BoolT))
  }

  function BoundNegated(): B.Bound {
    B.Unary(Not, BoundConjunction(), ScalarInfo(BoolT))
  }

  lemma NegatedBinds()
    ensures Bind(NEGATED, FLAGS) == Ok(BoundNegated())
  {
    FieldBinds("a", FLAGS);
    FieldBinds("b", FLAGS);
    assert Bind(NEGATED.operand, FLAGS) == Ok(BoundConjunction());
  }

  lemma NegatedParses(nums: Parser.NumberSyntax)
    ensures Parsable(NEGATED, nums)
  {
    FieldParses("a");
    FieldParses("b");
    assert Parsable(NEGATED.operand, nums);
  }

  // The rule's tokens, written with a space after each.
  lemma NegatedTokens(nums: Parser.NumberSyntax)
    ensures Printer.Print(NEGATED, 0, nums) ==
            [Parser.Op(Bang), Parser.LParen, Parser.Ident("f.a"),
             Parser.Op(Binary(And)), Parser.Ident("f.b"), Parser.RParen]
  {
    var and := Parser.Op(Binary(And));
    FieldPrints("a", 2, nums);
    FieldPrints("b", 3, nums);
    assert "f." + "a" == "f.a" && "f." + "b" == "f.b";
    assert PrintBare(NEGATED.operand, nums) == [Parser.Ident("f.a")] + [and] + [Parser.Ident("f.b")];
  }

  lemma NegatedText(nums: Parser.NumberSyntax)
    ensures |NEGATED_GAPS| == |Printer.Print(NEGATED, 0, nums)| + 1 &&
            WellSpaced(Printer.Print(NEGATED, 0, nums), NEGATED_GAPS)
    ensures Layout(Printer.Print(NEGATED, 0, nums), NEGATED_GAPS) == NEGATED_TEXT
  {
    var head := [Parser.Op(Bang), Parser.LParen, Parser.Ident("f.a")];
    var tail := [Parser.Op(Binary(And)), Parser.Ident("f.b"), Parser.RParen];
    NegatedParts(nums, head, tail);
    NegatedLaid(head, tail);
  }

  lemma NegatedLaid(head: seq<Parser.Token>, tail: seq<Parser.Token>)
    requires head == [Parser.Op(Bang), Parser.LParen, Parser.Ident("f.a")]
    requires tail == [Parser.Op(Binary(And)), Parser.Ident("f.b"), Parser.RParen]
    ensures Layout(head + tail, ["", "", ""] + [" ", " ", "", ""]) == NEGATED_TEXT
  {
    NegatedTail(tail);
    LayoutThree(head[0], head[1], head[2], tail, "", "", "", [" ", " ", "", ""]);
    assert head == [head[0], head[1], head[2]];
    NegatedJoined();
  }

  lemma NegatedParts(nums: Parser.NumberSyntax, head: seq<Parser.Token>, tail: seq<Parser.Token>)
    requires head == [Parser.Op(Bang), Parser.LParen, Parser.Ident("f.a")]
    requires tail == [Parser.Op(Binary(And)), Parser.Ident("f.b"), Parser.RParen]
    ensures Printer.Print(NEGATED, 0, nums) == head + tail
    ensures WellSpaced(head + tail, NEGATED_GAPS) && NEGATED_GAPS == ["", "", ""] + [" ", " ", "", ""]
  {
    NegatedTokens(nums);
    NegatedGaps(head + tail);
  }

  lemma NegatedGaps(ts: seq<Parser.Token>)
    requires ts == [Parser.Op(Bang), Parser.LParen, Parser.Ident("f.a"), Parser.Op(Binary(And)), Parser.Ident("f.b"),
                    Parser.RParen]
    ensures |NEGATED_GAPS| == |ts| + 1 && WellSpaced(ts, NEGATED_GAPS)
    ensures NEGATED_GAPS == ["", "", ""] + [" ", " ", "", ""]
  {
  }

  lemma NegatedTail(ts: seq<Parser.Token>)
    requires ts == [Parser.Op(Binary(And)), Parser.Ident("f.b"), Parser.RParen]
    ensures Layout(ts, [" ", " ", "", ""]) == " && f.b)"
  {
    assert Layout([], [""]) == "";
    LayoutThree(ts[0], ts[1], ts[2], [], " ", " ", "", [""]);
    assert [ts[0], ts[1], ts[2]] + [] == ts && [" ", " ", ""] + [""] == [" ", " ", "", ""];
    TailJoined();
  }

  lemma TailJoined()
    ensures " " + ("&&" + (" " + ("f.b" + ("" + (")" + ""))))) == " && f.b)"
  {
  }

  lemma NegatedJoined()
    ensures "" + ("!" + ("" + ("(" + ("" + ("f.a" + " && f.b)"))))) == NEGATED_TEXT
  {
  }

  lemma FieldPrints(name: string, level: nat, nums: Parser.NumberSyntax)
    requires level <= Parser.UNARY_LEVEL
    ensures Printer.Print(Field(name), level, nums) == [Parser.Ident("f." + name)]
  {
    assert ["f"] + [name] == ["f", name] && ["f", name][1..] == [name];
    assert Join([name]) == name && Join(["f", name]) == "f." + name;
  }

  lemma NegatedUnfolded(fl: FloatOps)
    ensures var e := BoundNegated();
            Fold(e, fl) == e && Size(e) == 6 && Depth(e) == 1 && ItemConstants(Items(e)) == {Bool(false)}
  {
    var e, x := BoundNegated(), BoundConjunction();
    assert Fold(x.left, fl) == x.left && Fold(x.right, fl) == x.right;
    assert Fold(x, fl) == x;
    assert Items(x) == [Factor(x.left.accessor), Factor(x.right.accessor), Const(Bool(false))] == Items(e);
    assert Size(x) == 5 && Depth(x) == 1;
  }

  lemma NegatedMeans(env: Env)
    requires "f" in env.ctx && env.ctx["f"] == Map(map["a" := Bool(true)])
    ensures EvalExpr(NEGATED, env) == Ok(Bool(true)) && B.EvalIn(BoundNegated(), env, B.Raw) == Ok(Bool(false))
  {
    FieldMeans("a", FLAG, Bool(true), env, B.Raw);
    FieldMeans("b", FLAG, Null, env, B.Raw);
    FieldInterpreted("a", Bool(true), env);
    FieldInterpreted("b", Null, env);
    assert B.EvalIn(BoundConjunction(), env, B.Raw) == Ok(Null);
    assert EvalExpr(NEGATED.operand, env) == Ok(Bool(false));
  }

  lemma OneConstant(e: B.Bound, v: Value, fl: FloatOps)
    requires ItemConstants(Items(e)) == {v}
    ensures Unambiguous(e, EMPTY_POOLS, fl)
  {
    assert (set u | u in EMPTY_POOLS.consts.items) == {};
  }

  // With f.a true and f.b missing, the rule `!(f.a && f.b)` is true when interpreted and false when compiled.
  lemma NullRightOperandDiverges(c: Compiled, lang: Language, lim: Limits)
    requires Produced(c, NEGATED_TEXT, FLAGS, lang) && Allowed(lim) >= 6 && lim.maxDepth >= 1
    ensures var env := Env(map["f" := Map(map["a" := Bool(true)])], lang.fl);
            EvalExpr(NEGATED, env) == Ok(Bool(true)) && Execute(c.program, env, lim) == Ok(Bool(false))
  {
    var e, env := BoundNegated(), Env(map["f" := Map(map["a" := Bool(true)])], lang.fl);
    NegatedParses(lang.nums);
    NegatedText(lang.nums);
    LayoutRoundTrip(NEGATED, NEGATED_GAPS, lang.nums);
    NegatedBinds();
    NegatedUnfolded(lang.fl);
    NegatedMeans(env);
    OneConstant(e, Bool(false), lang.fl);
    var after :| ProgramOf(c.program, e, EMPTY_POOLS, after, lang.fl);
    CompiledMeansRaw(c.program, e, EMPTY_POOLS, after, env, lim);
  }

  // The rule `f.c ? [1] : [1.0]`

  const ONE_FLAG: Registry := map["f" := map["c" := Scalar(BoolT)]]

  function OneList(v: Value, t: ValueType): Expr {
    ListExpr([LiteralExpr(v, t)])
  }

  function Mixed(d: Float64): Expr {
    ConditionalExpr(Field("c"), OneList(Int(1), IntT), OneList(Double(d), DoubleT))
  }

  function MixedText(d: Float64, nums: Parser.NumberSyntax): string {
    "f.c ? [1] : [" + (nums.show(d) + "]")
  }

  const MIXED_GAPS: seq<string> := ["", " ", " ", "", "", " ", " ", "", "", ""]

  function ListTokens(n: string): seq<Parser.Token> {
    [Parser.LBracket, Parser.Number(n), Parser.RBracket]
  }

  lemma MixedTokens(d: Float64, nums: Parser.NumberSyntax)
    ensures Printer.Print(Mixed(d), 0, nums) ==
            [Parser.Ident("f.c")] +
            ([Parser.Question] + (ListTokens("1") + ([Parser.Colon] + ListTokens(nums.show(d)))))
  {
    FieldPrints("c", 1, nums);
    assert "f." + "c" == "f.c";
    OneListPrints(Int(1), IntT, nums);
    OneListPrints(Double(d), DoubleT, nums);
    assert Digits(1) == "1";
  }

  lemma OneListPrints(v: Value, t: ValueType, nums: Parser.NumberSyntax)
    ensures Printer.Print(OneList(v, t), 0, nums) == [Parser.LBracket, PrintLiteral(v, nums), Parser.RBracket]
  {
    var es := OneList(v, t).elements;
    assert PrintItem(es[0], nums) == Printer.Print(es[0], 0, nums) == [PrintLiteral(v, nums)];
    assert PrintItems(es, nums) == PrintItem(es[0], nums);
    assert PrintBare(OneList(v, t), nums) == [Parser.LBracket] + PrintItems(es, nums) + [Parser.RBracket];
  }

  // A list of one number, with a gap in front of it and none inside.
  lemma ListText(n: string, rest: seq<Parser.Token>, gap: string, gaps: seq<string>)
    requires |gaps| == |rest| + 1
    ensures Layout(ListTokens(n) + rest, [gap, "", ""] + gaps) == gap + ("[" + (n + ("]" + Layout(rest, gaps))))
  {
    LayoutThree(Parser.LBracket, Parser.Number(n), Parser.RBracket, rest, gap, "", "", gaps);
    EmptyFront(n + ("" + ("]" + Layout(rest, gaps))));
    EmptyFront("]" + Layout(rest, gaps));
  }

  lemma EmptyFront(w: string)
    ensures "" + w == w
  {
  }

  lemma MixedIsText(d: Float64, nums: Parser.NumberSyntax)
    ensures |MIXED_GAPS| == |Printer.Print(Mixed(d), 0, nums)| + 1
    ensures Layout(Printer.Print(Mixed(d), 0, nums), MIXED_GAPS) == MixedText(d, nums)
  {
    var n := nums.show(d);
    MixedTokens(d, nums);
    MixedBack(n);
    var back, gaps := [Parser.Colon] + ListTokens(n), [" ", " ", "", "", ""];
    ListText("1", back, " ", gaps);
    MixedFront(ListTokens("1") + back, [" ", "", ""] + gaps);
    assert MIXED_GAPS == [""] + ([" "] + ([" ", "", ""] + gaps));
    MixedJoined(n);
  }

  lemma MixedBack(n: string)
    ensures Layout([Parser.Colon] + ListTokens(n), [" ", " ", "", "", ""]) ==
            " " + (":" + (" " + ("[" + (n + ("]" + "")))))
  {
    var list := ListTokens(n);
    ListText(n, [], " ", [""]);
    assert list + [] == list && [" ", "", ""] + [""] == [" ", "", "", ""] && Layout([], [""]) == "";
    LayoutStep(Parser.Colon, list, " ", [" ", "", "", ""]);
    assert [" "] + [" ", "", "", ""] == [" ", " ", "", "", ""];
  }

  lemma MixedFront(rest: seq<Parser.Token>, gaps: seq<string>)
    requires |gaps| == |rest| + 1
    ensures Layout([Parser.Ident("f.c")] + ([Parser.Question] + rest), [""] + ([" "] + gaps)) ==
            "" + ("f.c" + (" " + ("?" + Layout(rest, gaps))))
  {
    LayoutStep(Parser.Question, rest, " ", gaps);
    LayoutStep(Parser.Ident("f.c"), [Parser.Question] + rest, "", [" "] + gaps);
  }

  lemma MixedSpaced(d: Float64, nums: Parser.NumberSyntax)
    ensures |MIXED_GAPS| == |Printer.Print(Mixed(d), 0, nums)| + 1
    ensures WellSpaced(Printer.Print(Mixed(d), 0, nums), MIXED_GAPS)
  {
    MixedTokens(d, nums);
  }

  lemma MixedJoined(n: string)
    ensures "" + ("f.c" + (" " + ("?" + (" " + ("[" + ("1" + ("]" +
              (" " + (":" + (" " + ("[" + (n + ("]" + ""))))))))))))) ==
            "f.c ? [1] : [" + (n + "]")
  {
  }

  function BoundList(v: Value, t: ValueType): B.Bound {
    B.ListOf([B.Literal(v, ScalarInfo(t))], t, ContainerInfo(ListT, t))
  }

  function BoundMixed(d: Float64): B.Bound {
    B.Cond(BoundField("c", FLAG), BoundList(Int(1), IntT), BoundList(Double(d), DoubleT), ContainerInfo(ListT, IntT))
  }

  lemma ListBinds(v: Value, t: ValueType, reg: Registry)
    ensures Bind(OneList(v, t), reg) == Ok(BoundList(v, t))
  {
    var es, b := OneList(v, t).elements, B.Literal(v, ScalarInfo(t));
    assert es[..0] == [] && BindElements([], reg) == Ok(([], Unset)) && Bind(es[0], reg) == Ok(b);
    assert [] + [b] == [b];
    assert BindElements(es, reg) == Ok(([b], t));
  }

  lemma MixedBinds(d: Float64)
    ensures Bind(Mixed(d), ONE_FLAG) == Ok(BoundMixed(d))
  {
    FieldBinds("c", ONE_FLAG);
    ListBinds(Int(1), IntT, ONE_FLAG);
    ListBinds(Double(d), DoubleT, ONE_FLAG);
  }

  // A list of one literal means, and folds to, the literal list.
  lemma ListFolds(v: Value, t: ValueType, env: Env)
    ensures B.Eval(BoundList(v, t), env) == Ok(List([v]))
    ensures Fold(BoundList(v, t), env.fl) == B.Literal(List([v]), ContainerInfo(ListT, t))
  {
    var b := B.Literal(v, ScalarInfo(t));
    assert [b][..0] == [] && [] + [b] == [b] && [] + [v] == [v];
    ListMeans(b, v, env);
    ListMeans(b, v, Nowhere(env.fl));
    assert FoldAll([], env.fl) == [] && Fold(b, env.fl) == b;
    assert FoldAll([b], env.fl) == [b];
  }

  lemma ListMeans(b: B.Bound, v: Value, env: Env)
    requires B.Eval(b, env) == Ok(v)
    ensures B.EvalAllIn([b], env, B.Coerced) == Ok([v])
  {
    assert [b][..0] == [] && B.EvalAllIn([], env, B.Coerced) == Ok([]) && [] + [v] == [v];
  }

  lemma ListInterpreted(v: Value, t: ValueType, env: Env)
    ensures EvalExpr(OneList(v, t), env) == Ok(List([v]))
  {
    var es := OneList(v, t).elements;
    assert es[..0] == [] && EvalExprs([], env) == Ok([]) && EvalExpr(es[0], env) == Ok(v) && [] + [v] == [v];
    assert EvalExprs(es, env) == Ok([v]);
  }

  lemma MixedParses(d: Float64, nums: Parser.NumberSyntax)
    requires ParsableLiteral(Double(d), DoubleT, nums)
    ensures Parsable(Mixed(d), nums)
  {
    FieldParses("c");
    assert Parsable(OneList(Int(1), IntT), nums) && Parsable(OneList(Double(d), DoubleT), nums);
  }

  function FoldedMixed(d: Float64): B.Bound {
    B.Cond(BoundField("c", FLAG), B.Literal(List([Int(1)]), ContainerInfo(ListT, IntT)),
           B.Literal(List([Double(d)]), ContainerInfo(ListT, DoubleT)), ContainerInfo(ListT, IntT))
  }

  lemma MixedFolds(d: Float64, env: Env)
    ensures Fold(BoundMixed(d), env.fl) == FoldedMixed(d)
    ensures Size(FoldedMixed(d)) == 5 && Depth(FoldedMixed(d)) == 1
    ensures Items(FoldedMixed(d)) == [Factor(Accessor("f", ["c"])), Const(List([Int(1)])), Const(List([Double(d)]))]
  {
    var e := FoldedMixed(d);
    ListFolds(Int(1), IntT, env);
    ListFolds(Double(d), DoubleT, env);
    assert Fold(e.cond, env.fl) == e.cond;
    assert Size(e.cond) == Size(e.thn) == Size(e.els) == 1 && Depth(e.cond) == Depth(e.thn) == Depth(e.els) == 1;
    assert Items(e) == Items(e.cond) + Items(e.thn) + Items(e.els);
  }

  // Interning both lists stores only the first one, because inside a list the key shows both numbers as 1.
  lemma SharedSlot(factor: Item, d: Float64, fl: FloatOps)
    requires factor.Factor? && fl.text(d) == Whole(1)
    ensures var items := [factor, Const(List([Int(1)])), Const(List([Double(d)]))];
            Stored(List([Double(d)]), InternAll(EMPTY_POOLS, items, fl), fl) == List([Int(1)])
  {
    var ints, doubles := List([Int(1)]), List([Double(d)]);
    var a, b, c := [factor], [factor, Const(ints)], [factor, Const(ints), Const(doubles)];
    assert a[..0] == [] && b[..1] == a && c[..2] == b;
    assert Pools.Print(Int(1), fl) == Pools.Print(Double(d), fl);
    assert KeyOf(ints, fl).text.items == KeyOf(doubles, fl).text.items == [PrintedNumber(Whole(1))];
    assert InternAll(EMPTY_POOLS, a, fl).consts == Pool([], map[]);
    assert InternAll(EMPTY_POOLS, b, fl).consts == Pool([ints], map[KeyOf(ints, fl) := 0]);
  }

  lemma MixedStored(d: Float64, after: PoolSet, env: Env)
    requires "f" in env.ctx && env.ctx["f"] == Map(map["c" := Bool(false)])
    requires Stored(List([Double(d)]), after, env.fl) == List([Int(1)])
    ensures B.EvalIn(Represented(FoldedMixed(d), after, env.fl), env, B.Raw) == Ok(List([Int(1)]))
  {
    var e := FoldedMixed(d);
    FieldMeans("c", FLAG, Bool(false), env, B.Raw);
    assert Represented(e.cond, after, env.fl) == e.cond;
    assert Represented(e.els, after, env.fl) == B.Literal(List([Int(1)]), e.els.info);
  }

  // With f.c false, the rule `f.c ? [1] : [1.0]` is the list of the double 1.0 when interpreted and the list
  // of the integer 1 when compiled.
  lemma SharedConstantDiverges(c: Compiled, d: Float64, lang: Language, lim: Limits)
    requires lang.fl.text(d) == Whole(1) && ParsableLiteral(Double(d), DoubleT, lang.nums)
    requires Produced(c, MixedText(d, lang.nums), ONE_FLAG, lang) && Allowed(lim) >= 5 && lim.maxDepth >= 1
    ensures var env := Env(map["f" := Map(map["c" := Bool(false)])], lang.fl);
            EvalExpr(Mixed(d), env) == Ok(List([Double(d)])) && Execute(c.program, env, lim) == Ok(List([Int(1)]))
  {
    var e, env := FoldedMixed(d), Env(map["f" := Map(map["c" := Bool(false)])], lang.fl);
    MixedParses(d, lang.nums);
    MixedIsText(d, lang.nums);
    MixedSpaced(d, lang.nums);
    LayoutRoundTrip(Mixed(d), MIXED_GAPS, lang.nums);
    MixedBinds(d);
    MixedFolds(d, env);
    var after :| ProgramOf(c.program, e, EMPTY_POOLS, after, lang.fl);
    SharedSlot(Factor(Accessor("f", ["c"])), d, lang.fl);
    MixedStored(d, after, env);
    CompiledMeansStored(c.program, e, EMPTY_POOLS, after, env, lim);
    FieldInterpreted("c", Bool(false), env);
    ListInterpreted(Double(d), DoubleT, env);
  }
}
