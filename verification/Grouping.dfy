// How the parser groups operators, told without levels: the root of a chain of operators is the last one of
// the loosest class in it.
module Grouping {
  import opened Values
  import opened Operators
  import opened Schema
  import opened Ast
  import opened Parser
  import opened Tokenizer
  import opened Printer
  import opened Minimality
  import opened Interpreter

  // From the loosest to the tightest.
  const CLASSES: seq<set<BinOp>> := [
    {Or}, {And},
    {Strict(Eq), Strict(Ne)},
    {Strict(Lt), Strict(Le), Strict(Gt), Strict(Ge)},
    {Strict(Add), Strict(Sub)},
    {Strict(Mul), Strict(Div)}]

  predicate Tighter(p: BinOp, o: BinOp) {
    exists i, j | 0 <= i < j < |CLASSES| :: o in CLASSES[i] && p in CLASSES[j]
  }

  lemma ClassOf(op: BinOp, i: nat)
    requires i < |CLASSES|
    ensures op in CLASSES[i] <==> Precedence(op) == i + 1
  {
    assert CLASSES[0] == {Or} && CLASSES[1] == {And} && CLASSES[2] == {Strict(Eq), Strict(Ne)};
    assert CLASSES[3] == {Strict(Lt), Strict(Le), Strict(Gt), Strict(Ge)};
    assert CLASSES[4] == {Strict(Add), Strict(Sub)} && CLASSES[5] == {Strict(Mul), Strict(Div)};
  }

  lemma TighterExact(p: BinOp, o: BinOp)
    ensures Tighter(p, o) <==> Precedence(p) > Precedence(o)
  {
    ClassOf(p, Precedence(p) - 1);
    ClassOf(o, Precedence(o) - 1);
    if i, j :| 0 <= i < j < |CLASSES| && o in CLASSES[i] && p in CLASSES[j] {
      ClassOf(o, i);
      ClassOf(p, j);
    }
  }

  // What operators stand between: anything but a conditional or another binary operation. A prefix operator
  // and its operand are one operand.
  predicate Operand(e: Expr) {
    !e.ConditionalExpr? && !e.BinaryExpr?
  }

  ghost predicate Operands(es: seq<Expr>, nums: NumberSyntax) {
    forall e <- es :: Operand(e) && Parsable(e, nums)
  }

  // The tokens of operands with operators between them.
  function Chain(es: seq<Expr>, ops: seq<BinOp>, nums: NumberSyntax): seq<Token>
    requires |es| == |ops| + 1
  {
    if ops == [] then Print(es[0], 0, nums)
    else Print(es[0], 0, nums) + ([Op(Binary(ops[0]))] + Chain(es[1..], ops[1..], nums))
  }

  // The last operator of the loosest class: none in front of it is looser, and all behind it are tighter.
  function Root(ops: seq<BinOp>): (i: nat)
    requires ops != []
    ensures i < |ops|
  {
    if |ops| == 1 then 0 else
    var r := 1 + Root(ops[1..]);
    if Tighter(ops[r], ops[0]) then 0 else r
  }

  lemma {:induction false} RootLoosest(ops: seq<BinOp>)
    requires ops != []
    ensures var i := Root(ops);
            (forall j | 0 <= j < i :: Precedence(ops[j]) >= Precedence(ops[i])) &&
            (forall j | i < j < |ops| :: Precedence(ops[j]) > Precedence(ops[i]))
  {
    if |ops| > 1 {
      var rest := ops[1..];
      var r := 1 + Root(rest);
      RootLoosest(rest);
      TighterExact(ops[r], ops[0]);
      assert forall j | 1 <= j < |ops| :: ops[j] == rest[j - 1];
    }
  }

  lemma RootExact(ops: seq<BinOp>)
    requires ops != []
    ensures var i := Root(ops);
            (forall j | 0 <= j < i :: !Tighter(ops[i], ops[j])) && (forall j | i < j < |ops| :: Tighter(ops[j], ops[i]))
  {
    var i := Root(ops);
    RootLoosest(ops);
    forall j | 0 <= j < i ensures !Tighter(ops[i], ops[j]) { TighterExact(ops[i], ops[j]); }
    forall j | i < j < |ops| ensures Tighter(ops[j], ops[i]) { TighterExact(ops[j], ops[i]); }
  }

  // The tree of a chain: what is left and right of its root, grouped the same way.
  function Grouped(es: seq<Expr>, ops: seq<BinOp>): Expr
    requires |es| == |ops| + 1
    decreases |ops|
  {
    if ops == [] then es[0] else
    var i := Root(ops);
    BinaryExpr(Binary(ops[i]), Grouped(es[..i + 1], ops[..i]), Grouped(es[i + 1..], ops[i + 1..]))
  }

  lemma {:induction false} ChainSplits(es: seq<Expr>, ops: seq<BinOp>, i: nat, nums: NumberSyntax)
    requires |es| == |ops| + 1 && i < |ops|
    ensures Chain(es, ops, nums) ==
            Chain(es[..i + 1], ops[..i], nums) + [Op(Binary(ops[i]))] + Chain(es[i + 1..], ops[i + 1..], nums)
    decreases i
  {
    if i > 0 {
      ChainSplits(es[1..], ops[1..], i - 1, nums);
      assert es[1..][..i] == es[..i + 1][1..] && ops[1..][..i - 1] == ops[..i][1..];
      assert es[1..][i..] == es[i + 1..] && ops[1..][i..] == ops[i + 1..];
    }
  }

  // Printed where every operator of the chain may stand bare, the tree is the chain.
  lemma {:induction false} GroupedPrints(es: seq<Expr>, ops: seq<BinOp>, level: nat, nums: NumberSyntax)
    requires |es| == |ops| + 1 && Operands(es, nums) && level <= UNARY_LEVEL
    requires forall op <- ops :: level <= Precedence(op)
    ensures Print(Grouped(es, ops), level, nums) == Chain(es, ops, nums) && Parsable(Grouped(es, ops), nums)
    decreases |ops|
  {
    if ops == [] {
      assert es[0] in es;
    } else {
      var i := Root(ops);
      var q := Precedence(ops[i]);
      assert ops[i] in ops;
      RootLevels(ops);
      OperandsSplit(es, i, nums);
      GroupedPrints(es[..i + 1], ops[..i], q, nums);
      GroupedPrints(es[i + 1..], ops[i + 1..], q + 1, nums);
      GroupedStep(es, ops, i, Grouped(es[..i + 1], ops[..i]), Grouped(es[i + 1..], ops[i + 1..]), level, nums);
    }
  }

  lemma OperandsSplit(es: seq<Expr>, i: nat, nums: NumberSyntax)
    requires i < |es| && Operands(es, nums)
    ensures Operands(es[..i + 1], nums) && Operands(es[i + 1..], nums)
  {
    forall e <- es[..i + 1] ensures e in es {}
    forall e <- es[i + 1..] ensures e in es {}
  }

  lemma GroupedStep(es: seq<Expr>, ops: seq<BinOp>, i: nat, l: Expr, r: Expr, level: nat, nums: NumberSyntax)
    requires |es| == |ops| + 1 && i < |ops| && level <= Precedence(ops[i])
    requires Parsable(l, nums) && Print(l, Precedence(ops[i]), nums) == Chain(es[..i + 1], ops[..i], nums)
    requires Parsable(r, nums) && Print(r, Precedence(ops[i]) + 1, nums) == Chain(es[i + 1..], ops[i + 1..], nums)
    ensures var e := BinaryExpr(Binary(ops[i]), l, r);
            Parsable(e, nums) && Print(e, level, nums) == Chain(es, ops, nums)
  {
    ChainSplits(es, ops, i, nums);
    BinaryPrints(ops[i], l, r, level, nums);
  }

  lemma BinaryPrints(op: BinOp, l: Expr, r: Expr, level: nat, nums: NumberSyntax)
    requires level <= Precedence(op)
    ensures var q := Precedence(op);
            Print(BinaryExpr(Binary(op), l, r), level, nums) ==
            Print(l, q, nums) + [Op(Binary(op))] + Print(r, q + 1, nums)
  {
  }

  lemma RootLevels(ops: seq<BinOp>)
    requires ops != []
    ensures var i := Root(ops);
            (forall op <- ops[..i] :: Precedence(ops[i]) <= Precedence(op)) &&
            (forall op <- ops[i + 1..] :: Precedence(ops[i]) + 1 <= Precedence(op)) &&
            Precedence(ops[i]) + 1 <= UNARY_LEVEL
  {
    var i := Root(ops);
    RootLoosest(ops);
    forall op <- ops[..i] ensures Precedence(ops[i]) <= Precedence(op) { var j :| 0 <= j < i && ops[j] == op; }
    forall op <- ops[i + 1..] ensures Precedence(ops[i]) + 1 <= Precedence(op) {
      var j :| i < j < |ops| && ops[j] == op;
    }
  }

  // The parser groups every chain, of any length, in this way.
  lemma ChainParses(es: seq<Expr>, ops: seq<BinOp>, nums: NumberSyntax)
    requires |es| == |ops| + 1 && Operands(es, nums)
    ensures ParseTokens(Chain(es, ops, nums), nums) == Ok(Grouped(es, ops))
  {
    GroupedPrints(es, ops, 0, nums);
    var e := Grouped(es, ops);
    assert Print(e, 0, nums) + [] == Print(e, 0, nums);
    ParserInvertsPrinter(e, [], nums);
  }

  // And so it does with the text of the chain, whatever white space is in it.
  lemma ChainTextParses(es: seq<Expr>, ops: seq<BinOp>, gaps: seq<string>, nums: NumberSyntax)
    requires |es| == |ops| + 1 && Operands(es, nums)
    requires |gaps| == |Chain(es, ops, nums)| + 1 && WellSpaced(Chain(es, ops, nums), gaps)
    ensures ParseExpression(Layout(Chain(es, ops, nums), gaps), nums) == Ok(Grouped(es, ops))
  {
    GroupedPrints(es, ops, 0, nums);
    LayoutRoundTrip(Grouped(es, ops), gaps, nums);
  }

  // With two operators: the second one takes the middle operand exactly if it is in a tighter class.
  lemma TwoOperators(a: Expr, b: Expr, c: Expr, o: BinOp, p: BinOp, nums: NumberSyntax)
    requires Operands([a, b, c], nums)
    ensures ParseTokens(Chain([a, b, c], [o, p], nums), nums) ==
            Ok(if Tighter(p, o) then BinaryExpr(Binary(o), a, BinaryExpr(Binary(p), b, c))
               else BinaryExpr(Binary(p), BinaryExpr(Binary(o), a, b), c))
  {
    var es, ops := [a, b, c], [o, p];
    ChainParses(es, ops, nums);
    assert ops[1..] == [p] && ops[..1] == [o] && ops[..0] == [] && ops[2..] == [];
    assert es[..1] == [a] && es[1..] == [b, c] && es[..2] == [a, b] && es[2..] == [c];
    assert Root([p]) == 0 && Root([o]) == 0 && Root(ops) == if Tighter(p, o) then 0 else 1;
    GroupedPair(a, b, o);
    GroupedPair(b, c, p);
  }

  lemma GroupedPair(a: Expr, b: Expr, o: BinOp)
    ensures Grouped([a, b], [o]) == BinaryExpr(Binary(o), a, b)
  {
    var es, ops := [a, b], [o];
    assert Root(ops) == 0 && es[..1] == [a] && es[1..] == [b] && ops[..0] == [] && ops[1..] == [];
  }

  // A prefix operator takes no more than the operand behind it.
  lemma PrefixFirst(op: Operator, a: Expr, b: Expr, o: BinOp, nums: NumberSyntax)
    requires UnaryOperator(op).Some? && Operands([a, b], nums)
    ensures ParseTokens([Op(op)] + Chain([a, b], [o], nums), nums) == Ok(BinaryExpr(Binary(o), UnaryExpr(op, a), b))
  {
    var u := UnaryExpr(op, a);
    assert a in [a, b] && b in [a, b];
    assert Operands([u, b], nums);
    ChainParses([u, b], [o], nums);
    GroupedPair(u, b, o);
    PrefixChain(op, a, b, o, nums);
  }

  lemma PrefixChain(op: Operator, a: Expr, b: Expr, o: BinOp, nums: NumberSyntax)
    requires Operand(a)
    ensures Chain([UnaryExpr(op, a), b], [o], nums) == [Op(op)] + Chain([a, b], [o], nums)
  {
    PairChain(a, b, o, nums);
    PairChain(UnaryExpr(op, a), b, o, nums);
    PrefixPrints(op, a, nums);
    Regrouped([Op(op)], Print(a, 0, nums), [Op(Binary(o))] + Print(b, 0, nums));
  }

  lemma Regrouped<T>(a: seq<T>, b: seq<T>, c: seq<T>)
    ensures (a + b) + c == a + (b + c)
  {
  }

  lemma PairChain(a: Expr, b: Expr, o: BinOp, nums: NumberSyntax)
    ensures Chain([a, b], [o], nums) == Print(a, 0, nums) + ([Op(Binary(o))] + Print(b, 0, nums))
  {
    var es, ops := [a, b], [o];
    assert es[1..] == [b] && ops[1..] == [];
    assert Chain([b], [], nums) == Print(b, 0, nums);
  }

  lemma PrefixPrints(op: Operator, a: Expr, nums: NumberSyntax)
    requires Operand(a)
    ensures Print(UnaryExpr(op, a), 0, nums) == [Op(op)] + Print(a, 0, nums)
  {
    assert Print(a, UNARY_LEVEL, nums) == PrintBare(a, nums) == Print(a, 0, nums);
  }

  // A conditional's condition reaches back over all operators, its last arm forward over everything, also
  // over other conditionals.
  lemma ConditionalLast(c: Expr, t: Expr, f: Expr, nums: NumberSyntax)
    requires !c.ConditionalExpr? && Parsable(c, nums) && Parsable(t, nums) && Parsable(f, nums)
    ensures ParseTokens(Print(c, 0, nums) + [Question] + Print(t, 0, nums) + [Colon] + Print(f, 0, nums), nums) ==
            Ok(ConditionalExpr(c, t, f))
  {
    var e := ConditionalExpr(c, t, f);
    ConditionalPrints(c, t, f, nums);
    assert Parsable(e, nums) && Print(e, 0, nums) + [] == Print(e, 0, nums);
    ParserInvertsPrinter(e, [], nums);
  }

  lemma ConditionalPrints(c: Expr, t: Expr, f: Expr, nums: NumberSyntax)
    requires !c.ConditionalExpr? && Parsable(c, nums)
    ensures Print(ConditionalExpr(c, t, f), 0, nums) ==
            Print(c, 0, nums) + [Question] + Print(t, 0, nums) + [Colon] + Print(f, 0, nums)
  {
    assert Level(c) >= 1;
    assert Print(c, 1, nums) == PrintBare(c, nums) == Print(c, 0, nums);
  }

  // For instance, `1+2*3` is seven.

  function Numeral(n: nat): Expr
    requires n < INT_LIMIT
  {
    LiteralExpr(Int(n), IntT)
  }

  const SUM := BinaryExpr(Binary(Strict(Add)), Numeral(1), BinaryExpr(Binary(Strict(Mul)), Numeral(2), Numeral(3)))

  function SumTokens(): seq<Token> {
    [Number("1"), Op(Binary(Strict(Add))), Number("2"), Op(Binary(Strict(Mul))), Number("3")]
  }

  lemma SumPrints(nums: NumberSyntax)
    ensures Print(SUM, 0, nums) == SumTokens()
  {
    assert Digits(1) == "1" && Digits(2) == "2" && Digits(3) == "3";
    assert Print(SUM.right, 6, nums) == [Number("2")] + [Op(Binary(Strict(Mul)))] + [Number("3")];
  }

  lemma SumText()
    ensures Layout(SumTokens(), ["", "", "", "", "", ""]) == "1+2*3"
  {
    var ts := SumTokens();
    var back := [ts[3], ts[4]];
    SumBack(back);
    LayoutThree(ts[0], ts[1], ts[2], back, "", "", "", ["", "", ""]);
    assert ts == [ts[0], ts[1], ts[2]] + back && ["", "", ""] + ["", "", ""] == ["", "", "", "", "", ""];
    SumJoined();
  }

  lemma SumBack(back: seq<Token>)
    requires back == [Op(Binary(Strict(Mul))), Number("3")]
    ensures Layout(back, ["", "", ""]) == "*3"
  {
    assert Layout([], [""]) == "";
    LayoutStep(back[1], [], "", [""]);
    LayoutStep(back[0], [back[1]], "", ["", ""]);
    assert [back[0]] + [back[1]] == back && [back[1]] + [] == [back[1]] && [""] + [""] == ["", ""];
    assert [""] + ["", ""] == ["", "", ""];
  }

  lemma SumJoined()
    ensures "" + ("1" + ("" + ("+" + ("" + ("2" + "*3"))))) == "1+2*3"
  {
  }

  lemma SevenExample(nums: NumberSyntax, env: Env)
    ensures ParseExpression("1+2*3", nums) == Ok(SUM) && EvalExpr(SUM, env) == Ok(Long(7))
  {
    SumPrints(nums);
    SumText();
    LayoutRoundTrip(SUM, ["", "", "", "", "", ""], nums);
    SumMeans(env);
  }

  lemma SumMeans(env: Env)
    ensures EvalExpr(SUM, env) == Ok(Long(7))
  {
    assert EvalExpr(SUM.left, env) == Ok(Int(1)) && EvalExpr(SUM.right, env) == Ok(Long(6));
  }
}
