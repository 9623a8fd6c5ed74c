// What the parser accepts: exactly the printable trees, and never in fewer tokens than the printer needs.
module Minimality {
  import opened Values
  import opened Operators
  import opened Schema
  import opened Ast
  import opened Parser
  import opened Tokenizer
  import opened Printer

  // A double that was read from a number with a point can be shown as one, and read back.
  ghost predicate FaithfulNumbers(nums: NumberSyntax) {
    forall raw | IsNumeral(raw) && '.' in raw && nums.parse(raw).Some? ::
      var shown := nums.show(nums.parse(raw).value);
      IsNumeral(shown) && '.' in shown && nums.parse(shown) == nums.parse(raw)
  }

  // Tokens as the tokenizer gives them.
  ghost predicate Written(ts: seq<Token>) {
    forall t | t in ts :: t.End? || Writable(t)
  }

  // Printing at this level takes no more than k tokens.
  predicate Spans(e: Expr, level: nat, k: int, nums: NumberSyntax) {
    Parsable(e, nums) && |Print(e, level, nums)| <= k
  }

  predicate SpansItems(es: seq<Expr>, k: int, nums: NumberSyntax) {
    ParsableAll(es, nums) && |PrintItems(es, nums)| <= k
  }

  predicate SpansEntries(es: seq<MapEntry>, k: int, nums: NumberSyntax) {
    ParsableEntries(es, nums) && |PrintEntries(es, nums)| <= k
  }

  // Tokens that the loop can only take where what it has stands bare at this level.
  predicate Continues(t: Token, level: nat) {
    (t.Op? && t.op.Binary? ==> Precedence(t.op.op) <= level) && (t.Question? ==> level >= 1)
  }

  // Tokens at which the loop stops.
  predicate Stops(t: Token, minPrec: nat) {
    (t.Op? && t.op.Binary? ==> Precedence(t.op.op) < minPrec) && (t.Question? ==> minPrec > 0)
  }

  // A parse that succeeds read a tree that prints in at most the tokens it took, and stopped where it had to.
  ghost predicate Read(r: Parsed<Expr>, g: Reader, start: nat, minPrec: nat, m: Gauge) {
    r.Ok? ==> m.tree(r.value.0, minPrec, r.value.1 - start) && Stops(Peek(g.ts, r.value.1), minPrec)
  }

  // The measures above as values, so that the induction over the parser need not look at the printer.
  datatype Gauge = Gauge(
    tree: (Expr, nat, int) -> bool,
    items: (seq<Expr>, int) -> bool,
    entries: (seq<MapEntry>, int) -> bool)

  ghost predicate Exact(m: Gauge, nums: NumberSyntax) {
    (forall e, level, k {:trigger Spans(e, level, k, nums)} :: m.tree(e, level, k) == Spans(e, level, k, nums)) &&
    (forall es, k {:trigger SpansItems(es, k, nums)} :: m.items(es, k) == SpansItems(es, k, nums)) &&
    (forall es, k {:trigger SpansEntries(es, k, nums)} :: m.entries(es, k) == SpansEntries(es, k, nums))
  }

  function GaugeOf(nums: NumberSyntax): (m: Gauge)
    ensures Exact(m, nums)
  {
    Gauge((e: Expr, level: nat, k: int) => Spans(e, level, k, nums),
          (es: seq<Expr>, k: int) => SpansItems(es, k, nums),
          (es: seq<MapEntry>, k: int) => SpansEntries(es, k, nums))
  }

  lemma SpansLooser(e: Expr, level: nat, looser: nat, k: int, m: Gauge, nums: NumberSyntax)
    requires Exact(m, nums) && m.tree(e, level, k) && looser <= level
    ensures m.tree(e, looser, k)
  {
    assert Spans(e, level, k, nums) && m.tree(e, looser, k) == Spans(e, looser, k, nums);
  }

  // What has to have happened where the parser succeeds.

  lemma ExprCases(g: Reader, pos: nat, minPrec: nat)
    requires IsReader(g)
    ensures g.expr(pos, minPrec).Ok? ==>
              var p := g.prefix(pos);
              p.Ok? && pos < p.value.1 <= |g.ts| && g.expr(pos, minPrec) == g.loop(p.value.1, p.value.0, minPrec)
  {
    var e := ParseExpr(g.ts, pos, minPrec, g.nums);
    var p := ParsePrefix(g.ts, pos, g.nums);
    if p.Ok? { var _ := ParseLoop(g.ts, p.value.1, p.value.0, minPrec, g.nums); }
  }

  lemma ConditionalCases(g: Reader, pos: nat, left: Expr)
    requires IsReader(g) && pos < |g.ts| && Peek(g.ts, pos).Question?
    ensures g.loop(pos, left, 0).Ok? ==>
              var t := g.expr(pos + 1, 0);
              t.Ok? && pos + 1 < t.value.1 < |g.ts| && Peek(g.ts, t.value.1) == Colon &&
              var f := g.expr(t.value.1 + 1, 0);
              f.Ok? && t.value.1 + 1 < f.value.1 <= |g.ts| &&
              g.loop(pos, left, 0) == g.loop(f.value.1, ConditionalExpr(left, t.value.0, f.value.0), 0)
  {
    var l := ParseLoop(g.ts, pos, left, 0, g.nums);
    var t := ParseExpr(g.ts, pos + 1, 0, g.nums);
    if t.Ok? && Peek(g.ts, t.value.1) == Colon {
      var f := ParseExpr(g.ts, t.value.1 + 1, 0, g.nums);
      if f.Ok? { var _ := ParseLoop(g.ts, f.value.1, ConditionalExpr(left, t.value.0, f.value.0), 0, g.nums); }
    }
  }

  lemma BinaryCases(g: Reader, pos: nat, left: Expr, bop: BinOp, minPrec: nat)
    requires IsReader(g) && pos < |g.ts| && Peek(g.ts, pos) == Op(Binary(bop)) && Precedence(bop) >= minPrec
    ensures g.loop(pos, left, minPrec).Ok? ==>
              var r := g.expr(pos + 1, Precedence(bop) + 1);
              r.Ok? && pos + 1 < r.value.1 <= |g.ts| &&
              g.loop(pos, left, minPrec) == g.loop(r.value.1, BinaryExpr(Binary(bop), left, r.value.0), minPrec)
  {
    var l := ParseLoop(g.ts, pos, left, minPrec, g.nums);
    var r := ParseExpr(g.ts, pos + 1, Precedence(bop) + 1, g.nums);
    if r.Ok? { var _ := ParseLoop(g.ts, r.value.1, BinaryExpr(Binary(bop), left, r.value.0), minPrec, g.nums); }
  }

  lemma StopCases(g: Reader, pos: nat, left: Expr, minPrec: nat)
    requires IsReader(g) && pos <= |g.ts| && Stops(Peek(g.ts, pos), minPrec)
    ensures g.loop(pos, left, minPrec) == Ok((left, pos))
  {
    var _ := ParseLoop(g.ts, pos, left, minPrec, g.nums);
  }

  lemma CallCases(g: Reader, pos: nat, name: string)
    requires IsReader(g) && Peek(g.ts, pos) == Ident(name) && Peek(g.ts, pos + 1) == LParen
    ensures g.prefix(pos).Ok? ==>
              var r := g.items(pos + 2, RParen);
              r.Ok? && g.prefix(pos) == Ok((FunctionCallExpr(name, r.value.0), r.value.1))
  {
    var _, _ := ParsePrefix(g.ts, pos, g.nums), ParseItems(g.ts, pos + 2, RParen, g.nums);
  }

  lemma ListCases(g: Reader, pos: nat)
    requires IsReader(g) && Peek(g.ts, pos) == LBracket
    ensures g.prefix(pos).Ok? ==>
              var r := g.items(pos + 1, RBracket); r.Ok? && g.prefix(pos) == Ok((ListExpr(r.value.0), r.value.1))
  {
    var _, _ := ParsePrefix(g.ts, pos, g.nums), ParseItems(g.ts, pos + 1, RBracket, g.nums);
  }

  lemma MapCases(g: Reader, pos: nat)
    requires IsReader(g) && Peek(g.ts, pos) == LBrace
    ensures g.prefix(pos).Ok? && Peek(g.ts, pos + 1) != RBrace ==>
              var r := g.entries(pos + 1, []); r.Ok? && g.prefix(pos) == Ok((MapExpr(r.value.0), r.value.1))
    ensures Peek(g.ts, pos + 1) == RBrace ==> g.prefix(pos) == Ok((MapExpr([]), pos + 2))
  {
    var _, _ := ParsePrefix(g.ts, pos, g.nums), ParseEntries(g.ts, pos + 1, [], g.nums);
  }

  lemma UnaryCases(g: Reader, pos: nat, op: Operator)
    requires IsReader(g) && Peek(g.ts, pos) == Op(op)
    ensures g.prefix(pos).Ok? ==>
              var r := g.expr(pos + 1, UNARY_LEVEL);
              UnaryOperator(op).Some? && r.Ok? && pos + 1 < r.value.1 &&
              g.prefix(pos) == Ok((UnaryExpr(op, r.value.0), r.value.1))
  {
    var _, _ := ParsePrefix(g.ts, pos, g.nums), ParseExpr(g.ts, pos + 1, UNARY_LEVEL, g.nums);
  }

  lemma ParenthesizedCases(g: Reader, pos: nat)
    requires IsReader(g) && Peek(g.ts, pos) == LParen
    ensures g.prefix(pos).Ok? ==>
              var r := g.expr(pos + 1, 0);
              r.Ok? && pos + 1 < r.value.1 && Peek(g.ts, r.value.1) == RParen &&
              g.prefix(pos) == Ok((r.value.0, r.value.1 + 1))
  {
    var _, _ := ParsePrefix(g.ts, pos, g.nums), ParseExpr(g.ts, pos + 1, 0, g.nums);
  }

  lemma ItemsCases(g: Reader, pos: nat, close: Token)
    requires IsReader(g) && Closes(close)
    ensures g.items(pos, close) == if Peek(g.ts, pos) == close then Ok(([], pos + 1)) else g.more(pos, close, [])
  {
    var _, _ := ParseItems(g.ts, pos, close, g.nums), ParseMoreItems(g.ts, pos, close, [], g.nums);
  }

  lemma MoreCases(g: Reader, pos: nat, close: Token, done: seq<Expr>)
    requires IsReader(g) && Closes(close)
    ensures g.more(pos, close, done).Ok? ==>
              var r := g.expr(pos, 0);
              r.Ok? && pos < r.value.1 <= |g.ts| &&
              if Peek(g.ts, r.value.1) == Comma then
                r.value.1 < |g.ts| && g.more(pos, close, done) == g.more(r.value.1 + 1, close, done + [r.value.0])
              else Peek(g.ts, r.value.1) == close && g.more(pos, close, done) == Ok((done + [r.value.0], r.value.1 + 1))
  {
    var _, r := ParseMoreItems(g.ts, pos, close, done, g.nums), ParseExpr(g.ts, pos, 0, g.nums);
    if r.Ok? { var _ := ParseMoreItems(g.ts, r.value.1 + 1, close, done + [r.value.0], g.nums); }
  }

  lemma EntriesCases(g: Reader, pos: nat, done: seq<MapEntry>)
    requires IsReader(g)
    ensures g.entries(pos, done).Ok? ==>
              var r := g.expr(pos + 2, 0);
              Peek(g.ts, pos).StringTok? && pos < |g.ts| && Peek(g.ts, pos + 1) == Colon &&
              r.Ok? && pos + 2 < r.value.1 <= |g.ts| &&
              (Peek(g.ts, r.value.1) == Comma || Peek(g.ts, r.value.1) == RBrace) && r.value.1 < |g.ts| &&
              var more := done + [MapEntry(g.ts[pos].raw, r.value.0)];
              g.entries(pos, done) ==
              if Peek(g.ts, r.value.1) == Comma then g.entries(r.value.1 + 1, more) else Ok((more, r.value.1 + 1))
  {
    var _, r := ParseEntries(g.ts, pos, done, g.nums), ParseExpr(g.ts, pos + 2, 0, g.nums);
    if Peek(g.ts, pos).StringTok? && r.Ok? {
      var _ := ParseEntries(g.ts, r.value.1 + 1, done + [MapEntry(g.ts[pos].raw, r.value.0)], g.nums);
    }
  }

  // A reader of the tokens of some text.
  ghost predicate Reads(g: Reader, m: Gauge) {
    IsReader(g) && FaithfulNumbers(g.nums) && Written(g.ts) && Exact(m, g.nums)
  }

  lemma {:induction false} ReadExpr(g: Reader, m: Gauge, pos: nat, minPrec: nat)
    requires Reads(g, m) && minPrec <= UNARY_LEVEL
    ensures Read(g.expr(pos, minPrec), g, pos, minPrec, m)
    decreases |g.ts| - pos, 3
  {
    ExprCases(g, pos, minPrec);
    if g.expr(pos, minPrec).Ok? {
      var p := g.prefix(pos);
      ReadPrefix(g, m, pos);
      ReadLoop(g, m, pos, p.value.1, p.value.0, UNARY_LEVEL, minPrec);
    }
  }

  lemma {:induction false} ReadLoop(g: Reader, m: Gauge, start: nat, pos: nat, left: Expr, level: nat, minPrec: nat)
    requires Reads(g, m) && start < pos <= |g.ts| && minPrec <= level <= UNARY_LEVEL
    requires m.tree(left, level, pos - start) && Continues(Peek(g.ts, pos), level)
    ensures Read(g.loop(pos, left, minPrec), g, start, minPrec, m)
    decreases |g.ts| - pos, 1
  {
    if Stops(Peek(g.ts, pos), minPrec) {
      StopCases(g, pos, left, minPrec);
      SpansLooser(left, level, minPrec, pos - start, m, g.nums);
    } else if Peek(g.ts, pos).Question? {
      ReadConditional(g, m, start, pos, left, level);
    } else {
      ReadBinary(g, m, start, pos, left, level, minPrec);
    }
  }

  lemma {:induction false} ReadConditional(g: Reader, m: Gauge, start: nat, pos: nat, left: Expr, level: nat)
    requires Reads(g, m) && start < pos < |g.ts| && 1 <= level <= UNARY_LEVEL
    requires m.tree(left, level, pos - start) && Peek(g.ts, pos).Question?
    ensures Read(g.loop(pos, left, 0), g, start, 0, m)
    decreases |g.ts| - pos, 0
  {
    ConditionalCases(g, pos, left);
    if g.loop(pos, left, 0).Ok? {
      var t := g.expr(pos + 1, 0);
      var p := t.value.1 + 1;
      var f := g.expr(p, 0);
      ReadExpr(g, m, pos + 1, 0);
      ReadExpr(g, m, p, 0);
      SpansLooser(left, level, 1, pos - start, m, g.nums);
      var e := ConditionalExpr(left, t.value.0, f.value.0);
      SpansConditional(e, pos - start, p - 1 - (pos + 1), f.value.1 - p, m, g.nums);
      ReadLoop(g, m, start, f.value.1, e, 0, 0);
    }
  }

  lemma SpansConditional(e: Expr, k0: int, k1: int, k2: int, m: Gauge, nums: NumberSyntax)
    requires Exact(m, nums) && e.ConditionalExpr? && m.tree(e.cond, 1, k0) && m.tree(e.thn, 0, k1) &&
             m.tree(e.els, 0, k2)
    ensures m.tree(e, 0, k0 + k1 + k2 + 2)
  {
    assert Spans(e.cond, 1, k0, nums) && Spans(e.thn, 0, k1, nums) && Spans(e.els, 0, k2, nums);
    assert Spans(e, 0, k0 + k1 + k2 + 2, nums);
  }

  lemma {:induction false} ReadBinary(g: Reader, m: Gauge, start: nat, pos: nat, left: Expr, level: nat, minPrec: nat)
    requires Reads(g, m) && start < pos < |g.ts| && minPrec <= level <= UNARY_LEVEL
    requires m.tree(left, level, pos - start) && Continues(Peek(g.ts, pos), level)
    requires Peek(g.ts, pos).Op? && Peek(g.ts, pos).op.Binary? && Precedence(Peek(g.ts, pos).op.op) >= minPrec
    ensures Read(g.loop(pos, left, minPrec), g, start, minPrec, m)
    decreases |g.ts| - pos, 0
  {
    var bop := g.ts[pos].op.op;
    var q := Precedence(bop);
    BinaryCases(g, pos, left, bop, minPrec);
    if g.loop(pos, left, minPrec).Ok? {
      var r := g.expr(pos + 1, q + 1);
      ReadExpr(g, m, pos + 1, q + 1);
      SpansLooser(left, level, q, pos - start, m, g.nums);
      var e := BinaryExpr(Binary(bop), left, r.value.0);
      SpansBinary(e, pos - start, r.value.1 - (pos + 1), m, g.nums);
      ReadLoop(g, m, start, r.value.1, e, q, minPrec);
    }
  }

  lemma SpansBinary(e: Expr, k0: int, k1: int, m: Gauge, nums: NumberSyntax)
    requires Exact(m, nums) && e.BinaryExpr? && e.op.Binary?
    requires m.tree(e.left, Precedence(e.op.op), k0) && m.tree(e.right, Precedence(e.op.op) + 1, k1)
    ensures m.tree(e, Precedence(e.op.op), k0 + k1 + 1)
  {
    assert Spans(e.left, Precedence(e.op.op), k0, nums) && Spans(e.right, Precedence(e.op.op) + 1, k1, nums);
    assert Spans(e, Precedence(e.op.op), k0 + k1 + 1, nums);
  }

  // What one prefix took is enough even where only unary operators may stand bare.
  ghost predicate ReadTight(r: Parsed<Expr>, pos: nat, m: Gauge) {
    r.Ok? ==> m.tree(r.value.0, UNARY_LEVEL, r.value.1 - pos)
  }

  // Trees that one prefix makes of what is inside it.

  lemma SpansCall(name: string, args: seq<Expr>, k: int, m: Gauge, nums: NumberSyntax)
    requires Exact(m, nums) && IsName(name) && m.items(args, k)
    ensures m.tree(FunctionCallExpr(name, args), UNARY_LEVEL, k + 3)
  {
    assert SpansItems(args, k, nums) && Spans(FunctionCallExpr(name, args), UNARY_LEVEL, k + 3, nums);
  }

  lemma SpansList(es: seq<Expr>, k: int, m: Gauge, nums: NumberSyntax)
    requires Exact(m, nums) && m.items(es, k)
    ensures m.tree(ListExpr(es), UNARY_LEVEL, k + 2)
  {
    assert SpansItems(es, k, nums) && Spans(ListExpr(es), UNARY_LEVEL, k + 2, nums);
  }

  lemma SpansMap(es: seq<MapEntry>, k: int, m: Gauge, nums: NumberSyntax)
    requires Exact(m, nums) && m.entries(es, k)
    ensures m.tree(MapExpr(es), UNARY_LEVEL, k + 2)
  {
    assert SpansEntries(es, k, nums) && Spans(MapExpr(es), UNARY_LEVEL, k + 2, nums);
  }

  lemma SpansUnary(op: Operator, x: Expr, k: int, m: Gauge, nums: NumberSyntax)
    requires Exact(m, nums) && UnaryOperator(op).Some? && m.tree(x, UNARY_LEVEL, k)
    ensures m.tree(UnaryExpr(op, x), UNARY_LEVEL, k + 1)
  {
    assert Spans(x, UNARY_LEVEL, k, nums) && Spans(UnaryExpr(op, x), UNARY_LEVEL, k + 1, nums);
  }

  lemma SpansParentheses(e: Expr, k: int, m: Gauge, nums: NumberSyntax)
    requires Exact(m, nums) && m.tree(e, 0, k)
    ensures m.tree(e, UNARY_LEVEL, k + 2)
  {
    assert Spans(e, 0, k, nums) && Spans(e, UNARY_LEVEL, k + 2, nums);
  }

  lemma SpansNothing(m: Gauge, nums: NumberSyntax)
    requires Exact(m, nums)
    ensures m.items([], 0) && m.entries([], 0)
  {
    assert SpansItems([], 0, nums) && SpansEntries([], 0, nums);
  }

  lemma {:induction false} ReadPrefix(g: Reader, m: Gauge, pos: nat)
    requires Reads(g, m)
    ensures ReadTight(g.prefix(pos), pos, m)
    decreases |g.ts| - pos, 2
  {
    if g.prefix(pos).Err? { return; }
    match Peek(g.ts, pos)
    case Ident(raw) =>
      if Peek(g.ts, pos + 1) == LParen {
        var r := g.items(pos + 2, RParen);
        CallCases(g, pos, raw);
        ReadItems(g, m, pos + 2, RParen);
        assert Writable(g.ts[pos]);
        SpansCall(raw, r.value.0, r.value.1 - pos - 3, m, g.nums);
      } else {
        RefTight(g, m, pos);
      }
    case Op(op) =>
      var r := g.expr(pos + 1, UNARY_LEVEL);
      UnaryCases(g, pos, op);
      ReadExpr(g, m, pos + 1, UNARY_LEVEL);
      SpansUnary(op, r.value.0, r.value.1 - pos - 1, m, g.nums);
    case LParen =>
      var r := g.expr(pos + 1, 0);
      ParenthesizedCases(g, pos);
      ReadExpr(g, m, pos + 1, 0);
      SpansParentheses(r.value.0, r.value.1 - pos - 1, m, g.nums);
    case LBracket =>
      var r := g.items(pos + 1, RBracket);
      ListCases(g, pos);
      ReadItems(g, m, pos + 1, RBracket);
      SpansList(r.value.0, r.value.1 - pos - 2, m, g.nums);
    case LBrace =>
      MapCases(g, pos);
      SpansNothing(m, g.nums);
      if Peek(g.ts, pos + 1) == RBrace {
        SpansMap([], 0, m, g.nums);
      } else {
        var r := g.entries(pos + 1, []);
        ReadEntries(g, m, pos + 1, pos + 1, []);
        SpansMap(r.value.0, r.value.1 - pos - 2, m, g.nums);
      }
    case _ => LiteralTight(g, m, pos);
  }

  lemma RefTight(g: Reader, m: Gauge, pos: nat)
    requires Reads(g, m) && Peek(g.ts, pos).Ident? && Peek(g.ts, pos + 1) != LParen
    ensures ReadTight(g.prefix(pos), pos, m)
  {
    assert g.prefix(pos) == ParsePrefix(g.ts, pos, g.nums);
    assert Writable(g.ts[pos]);
    RefIsParsable(g.ts[pos].raw);
    if g.prefix(pos).Ok? { assert Spans(g.prefix(pos).value.0, UNARY_LEVEL, 1, g.nums); }
  }

  lemma LiteralTight(g: Reader, m: Gauge, pos: nat)
    requires Reads(g, m)
    requires var t := Peek(g.ts, pos); !t.Ident? && !t.Op? && !t.LParen? && !t.LBracket? && !t.LBrace?
    ensures ReadTight(g.prefix(pos), pos, m)
  {
    assert g.prefix(pos) == ParsePrefix(g.ts, pos, g.nums);
    assert pos < |g.ts| ==> g.ts[pos].End? || Writable(g.ts[pos]);
    if Peek(g.ts, pos).Number? {
      assert Writable(g.ts[pos]);
      NumberIsParsable(g.ts[pos].raw, g.nums);
    }
    if g.prefix(pos).Ok? { assert Spans(g.prefix(pos).value.0, UNARY_LEVEL, 1, g.nums); }
  }

  lemma NumberIsParsable(raw: string, nums: NumberSyntax)
    requires FaithfulNumbers(nums) && IsNumeral(raw)
    ensures NumberLiteral(raw, nums).Ok? ==> Spans(NumberLiteral(raw, nums).value, UNARY_LEVEL, 1, nums)
  {
  }

  lemma {:induction false} SplitClean(s: string)
    ensures forall i | 0 <= i < |Split(s)| :: '.' !in Split(s)[i]
  {
    if '.' in s { SplitClean(s[1..]); }
  }

  lemma {:induction false} JoinSplit(s: string)
    ensures Join(Split(s)) == s
  {
    if '.' !in s {
    } else if s[0] == '.' {
      JoinSplit(s[1..]);
      assert ([""] + Split(s[1..]))[1..] == Split(s[1..]);
      assert s == "." + s[1..];
    } else {
      JoinSplit(s[1..]);
      var rest := Split(s[1..]);
      assert ([[s[0]] + rest[0]] + rest[1..])[1..] == rest[1..];
      assert s == [s[0]] + s[1..];
    }
  }

  lemma RefIsParsable(raw: string)
    requires IsName(raw)
    ensures ParseFactorRef(raw).Ok? ==> ParsableRef(ParseFactorRef(raw).value)
  {
    SplitClean(raw);
    JoinSplit(raw);
    var parts := Split(raw);
    assert [parts[0]] + parts[1..] == parts;
    assert forall i | 1 <= i < |parts| :: parts[1..][i - 1] == parts[i];
  }

  ghost predicate ReadAll(r: Parsed<seq<Expr>>, start: nat, m: Gauge) {
    r.Ok? ==> m.items(r.value.0, r.value.1 - start - 1)
  }

  ghost predicate ReadAllEntries(r: Parsed<seq<MapEntry>>, start: nat, m: Gauge) {
    r.Ok? ==> m.entries(r.value.0, r.value.1 - start - 1)
  }

  lemma {:induction false} ReadItems(g: Reader, m: Gauge, pos: nat, close: Token)
    requires Reads(g, m) && Closes(close)
    ensures ReadAll(g.items(pos, close), pos, m)
    decreases |g.ts| - pos, 5
  {
    ItemsCases(g, pos, close);
    SpansNothing(m, g.nums);
    if Peek(g.ts, pos) != close { ReadMore(g, m, pos, pos, close, []); }
  }

  lemma {:induction false} ItemsLength(done: seq<Expr>, e: Expr, nums: NumberSyntax)
    ensures |PrintItems(done + [e], nums)| ==
            |PrintItems(done, nums)| + (if done == [] then 0 else 1) + |PrintItem(e, nums)|
  {
    if done != [] {
      assert (done + [e])[1..] == done[1..] + [e];
      ItemsLength(done[1..], e, nums);
    }
  }

  lemma {:induction false} ReadMore(g: Reader, m: Gauge, start: nat, pos: nat, close: Token, done: seq<Expr>)
    requires Reads(g, m) && Closes(close) && m.items(done, pos - start - (if done == [] then 0 else 1))
    ensures ReadAll(g.more(pos, close, done), start, m)
    decreases |g.ts| - pos, 4
  {
    MoreCases(g, pos, close, done);
    if g.more(pos, close, done).Ok? {
      ReadExpr(g, m, pos, 0);
      var e, p := g.expr(pos, 0).value.0, g.expr(pos, 0).value.1;
      ItemFits(done, e, pos - start, p - start, m, g.nums);
      if Peek(g.ts, p) == Comma {
        ReadMore(g, m, start, p + 1, close, done + [e]);
      } else {
        assert g.more(pos, close, done) == Ok((done + [e], p + 1));
      }
    }
  }

  lemma ItemFits(done: seq<Expr>, e: Expr, k: int, l: int, m: Gauge, nums: NumberSyntax)
    requires Exact(m, nums) && m.items(done, k - (if done == [] then 0 else 1)) && m.tree(e, 0, l - k)
    ensures m.items(done + [e], l)
  {
    ItemsLength(done, e, nums);
    assert SpansItems(done, k - (if done == [] then 0 else 1), nums) && Spans(e, 0, l - k, nums);
    assert SpansItems(done + [e], l, nums);
  }

  lemma {:induction false} EntriesLength(done: seq<MapEntry>, e: MapEntry, nums: NumberSyntax)
    ensures |PrintEntries(done + [e], nums)| ==
            |PrintEntries(done, nums)| + (if done == [] then 0 else 1) + 2 + |Print(e.value, 0, nums)|
  {
    if done != [] {
      assert (done + [e])[1..] == done[1..] + [e];
      EntriesLength(done[1..], e, nums);
    }
  }

  lemma {:induction false} ReadEntries(g: Reader, m: Gauge, start: nat, pos: nat, done: seq<MapEntry>)
    requires Reads(g, m) && m.entries(done, pos - start - (if done == [] then 0 else 1))
    ensures ReadAllEntries(g.entries(pos, done), start, m)
    decreases |g.ts| - pos, 4
  {
    EntriesCases(g, pos, done);
    if g.entries(pos, done).Ok? {
      ReadExpr(g, m, pos + 2, 0);
      var r := g.expr(pos + 2, 0).value;
      assert Writable(g.ts[pos]);
      var e := MapEntry(g.ts[pos].raw, r.0);
      EntryFits(done, e, pos - start, r.1 - start, m, g.nums);
      if Peek(g.ts, r.1) == Comma { ReadEntries(g, m, start, r.1 + 1, done + [e]); }
    }
  }

  lemma EntryFits(done: seq<MapEntry>, e: MapEntry, k: int, l: int, m: Gauge, nums: NumberSyntax)
    requires Exact(m, nums) && m.entries(done, k - (if done == [] then 0 else 1))
    requires Writable(StringTok(e.key)) && m.tree(e.value, 0, l - k - 2)
    ensures m.entries(done + [e], l)
  {
    EntriesLength(done, e, nums);
    assert SpansEntries(done, k - (if done == [] then 0 else 1), nums) && Spans(e.value, 0, l - k - 2, nums);
    assert SpansEntries(done + [e], l, nums);
  }

  // What the printer prints can be written as text.

  lemma {:induction false} DigitsNumber(n: nat)
    ensures IsNumeral(Digits(n))
  {
    var s := Digits(n);
    assert AllDigitsIn(s, 0, |s|);
  }

  lemma {:induction false} PrintIsWritable(e: Expr, level: nat, nums: NumberSyntax)
    requires Parsable(e, nums)
    ensures forall t | t in Print(e, level, nums) :: Writable(t)
    decreases e, 2
  {
    BareIsWritable(e, nums);
  }

  lemma {:induction false} BareIsWritable(e: Expr, nums: NumberSyntax)
    requires Parsable(e, nums)
    ensures forall t | t in PrintBare(e, nums) :: Writable(t)
    decreases e, 1
  {
    match e
    case LiteralExpr(v, _) =>
      if v.Int? { DigitsNumber(v.i); } else if v.Long? { DigitsNumber(v.l); }
    case FactorRefExpr(_) =>
    case ConditionalExpr(c, t, f) =>
      PrintIsWritable(c, 1, nums);
      PrintIsWritable(t, 0, nums);
      PrintIsWritable(f, 0, nums);
    case FunctionCallExpr(_, args) => ItemsAreWritable(args, nums);
    case ListExpr(es) => ItemsAreWritable(es, nums);
    case MapExpr(es) => EntriesAreWritable(es, nums);
    case UnaryExpr(_, x) => PrintIsWritable(x, UNARY_LEVEL, nums);
    case BinaryExpr(op, l, r) =>
      PrintIsWritable(l, Precedence(op.op), nums);
      PrintIsWritable(r, Precedence(op.op) + 1, nums);
  }

  lemma {:induction false} ItemsAreWritable(es: seq<Expr>, nums: NumberSyntax)
    requires ParsableAll(es, nums)
    ensures forall t | t in PrintItems(es, nums) :: Writable(t)
    decreases es, 0
  {
    if es != [] {
      PrintIsWritable(es[0], 0, nums);
      assert PrintItem(es[0], nums) == Print(es[0], 0, nums);
      if |es| > 1 { ItemsAreWritable(es[1..], nums); }
    }
  }

  lemma {:induction false} EntriesAreWritable(es: seq<MapEntry>, nums: NumberSyntax)
    requires ParsableEntries(es, nums)
    ensures forall t | t in PrintEntries(es, nums) :: Writable(t)
    decreases es, 0
  {
    if es != [] {
      PrintIsWritable(es[0].value, 0, nums);
      if |es| > 1 { EntriesAreWritable(es[1..], nums); }
    }
  }

  // The printer prints the shortest token sequence that parses to a tree.
  lemma PrinterMinimal(ts: seq<Token>, e: Expr, nums: NumberSyntax)
    requires FaithfulNumbers(nums) && Written(ts) && ParseTokens(ts, nums) == Ok(e)
    ensures Parsable(e, nums) && |Print(e, 0, nums)| <= |ts|
    ensures ParseTokens(Print(e, 0, nums), nums) == Ok(e)
  {
    var g := ReaderOf(ts, nums);
    assert g.expr(0, 0) == ParseExpr(ts, 0, 0, nums);
    var m := GaugeOf(nums);
    ReadExpr(g, m, 0, 0);
    if g.expr(0, 0).Ok? { assert Spans(e, 0, g.expr(0, 0).value.1, nums); }
    ParserInvertsPrinter(e, [], nums);
    assert Print(e, 0, nums) + [] == Print(e, 0, nums);
  }

  // From text to trees

  function ParseExpression(s: string, nums: NumberSyntax): Result<Expr> {
    var ts :- Tokenize(s);
    ParseTokens(ts, nums)
  }

  function PrintExpression(e: Expr, nums: NumberSyntax): string {
    Render(Print(e, 0, nums))
  }

  // Writing a tree as text and parsing the text gives the tree back.
  lemma TextRoundTrip(e: Expr, nums: NumberSyntax)
    requires Parsable(e, nums)
    ensures ParseExpression(PrintExpression(e, nums), nums) == Ok(e)
  {
    PrintIsWritable(e, 0, nums);
    TokenizerInvertsRender(Print(e, 0, nums));
    ParserInvertsPrinter(e, [End], nums);
  }

  // So does any other text of its tokens, whatever white space is in it.
  lemma LayoutRoundTrip(e: Expr, gaps: seq<string>, nums: NumberSyntax)
    requires Parsable(e, nums) && |gaps| == |Print(e, 0, nums)| + 1 && WellSpaced(Print(e, 0, nums), gaps)
    ensures ParseExpression(Layout(Print(e, 0, nums), gaps), nums) == Ok(e)
  {
    PrintIsWritable(e, 0, nums);
    TokenizerInvertsLayout(Print(e, 0, nums), gaps);
    ParserInvertsPrinter(e, [End], nums);
  }

  lemma TokensWritten(s: string, ts: seq<Token>)
    requires Tokenize(s) == Ok(ts)
    ensures Written(ts)
  {
    TokensAreWritable(s, 0);
    forall t | t in ts ensures t.End? || Writable(t) {
      var k :| 0 <= k < |ts| && ts[k] == t;
    }
  }

  lemma TextIsParsable(s: string, e: Expr, nums: NumberSyntax)
    requires FaithfulNumbers(nums) && ParseExpression(s, nums) == Ok(e)
    ensures Parsable(e, nums)
  {
    TokensWritten(s, Tokenize(s).value);
    PrinterMinimal(Tokenize(s).value, e, nums);
  }

  // The trees that some text parses to are exactly the parsable ones.
  lemma ParserRange(e: Expr, nums: NumberSyntax)
    requires FaithfulNumbers(nums)
    ensures Parsable(e, nums) <==> exists s :: ParseExpression(s, nums) == Ok(e)
  {
    if Parsable(e, nums) {
      TextRoundTrip(e, nums);
    } else if s :| ParseExpression(s, nums) == Ok(e) {
      TextIsParsable(s, e, nums);
    }
  }

  // Whole numbers of at most 31 bits are INT, those of at most 63 bits LONG, and larger ones no literals.
  lemma WholeLiterals(w: string, nums: NumberSyntax)
    requires AllDigits(w)
    ensures NumberLiteral(w, nums) ==
            if DigitsValue(w) <= 2_147_483_647 then Ok(LiteralExpr(Int(DigitsValue(w)), IntT))
            else if DigitsValue(w) <= 9_223_372_036_854_775_807 then Ok(LiteralExpr(Long(DigitsValue(w)), LongT))
            else Err(ExpressionInvalid)
  {
    assert forall i | 0 <= i < |w| :: IsDigit(w[i]);
  }
}
