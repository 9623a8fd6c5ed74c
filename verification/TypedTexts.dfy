// Literals are typed as the parser builds them, whatever reads the numbers.
module TypedTexts {
  import opened Values
  import opened Ast
  import opened Parser
  import opened Tokenizer
  import opened Printer
  import opened Minimality
  import opened Typing

  ghost predicate TypedTree(r: Parsed<Expr>) {
    r.Ok? ==> LiteralsTyped(r.value.0)
  }

  ghost predicate AllTyped(es: seq<Expr>) {
    forall i | 0 <= i < |es| :: LiteralsTyped(es[i])
  }

  ghost predicate EntriesTyped(es: seq<MapEntry>) {
    forall i | 0 <= i < |es| :: LiteralsTyped(es[i].value)
  }

  lemma {:induction false} ExprIsTyped(g: Reader, pos: nat, minPrec: nat)
    requires IsReader(g)
    ensures TypedTree(g.expr(pos, minPrec))
    decreases |g.ts| - pos, 3
  {
    ExprCases(g, pos, minPrec);
    if g.expr(pos, minPrec).Ok? {
      PrefixIsTyped(g, pos);
      LoopIsTyped(g, g.prefix(pos).value.1, g.prefix(pos).value.0, minPrec);
    }
  }

  lemma {:induction false} LoopIsTyped(g: Reader, pos: nat, left: Expr, minPrec: nat)
    requires IsReader(g) && pos <= |g.ts| && LiteralsTyped(left)
    ensures TypedTree(g.loop(pos, left, minPrec))
    decreases |g.ts| - pos, 1
  {
    if Stops(Peek(g.ts, pos), minPrec) {
      StopCases(g, pos, left, minPrec);
    } else if Peek(g.ts, pos).Question? {
      ConditionalIsTyped(g, pos, left);
    } else {
      BinaryIsTyped(g, pos, left, minPrec);
    }
  }

  lemma {:induction false} ConditionalIsTyped(g: Reader, pos: nat, left: Expr)
    requires IsReader(g) && pos < |g.ts| && Peek(g.ts, pos).Question? && LiteralsTyped(left)
    ensures TypedTree(g.loop(pos, left, 0))
    decreases |g.ts| - pos, 0
  {
    ConditionalCases(g, pos, left);
    if g.loop(pos, left, 0).Ok? {
      var t := g.expr(pos + 1, 0).value;
      var f := g.expr(t.1 + 1, 0).value;
      ExprIsTyped(g, pos + 1, 0);
      ExprIsTyped(g, t.1 + 1, 0);
      LoopIsTyped(g, f.1, ConditionalExpr(left, t.0, f.0), 0);
    }
  }

  lemma {:induction false} BinaryIsTyped(g: Reader, pos: nat, left: Expr, minPrec: nat)
    requires IsReader(g) && pos < |g.ts| && Peek(g.ts, pos).Op? && Peek(g.ts, pos).op.Binary?
    requires Precedence(Peek(g.ts, pos).op.op) >= minPrec && LiteralsTyped(left)
    ensures TypedTree(g.loop(pos, left, minPrec))
    decreases |g.ts| - pos, 0
  {
    var bop := Peek(g.ts, pos).op.op;
    BinaryCases(g, pos, left, bop, minPrec);
    if g.loop(pos, left, minPrec).Ok? {
      var r := g.expr(pos + 1, Precedence(bop) + 1).value;
      ExprIsTyped(g, pos + 1, Precedence(bop) + 1);
      LoopIsTyped(g, r.1, BinaryExpr(Binary(bop), left, r.0), minPrec);
    }
  }

  lemma {:induction false} PrefixIsTyped(g: Reader, pos: nat)
    requires IsReader(g)
    ensures TypedTree(g.prefix(pos))
    decreases |g.ts| - pos, 2
  {
    if g.prefix(pos).Err? { return; }
    match Peek(g.ts, pos)
    case Ident(raw) =>
      if Peek(g.ts, pos + 1) == LParen {
        CallCases(g, pos, raw);
        ItemsAreTyped(g, pos + 2, RParen);
      } else {
        AtomIsTyped(g, pos);
      }
    case Op(op) =>
      UnaryCases(g, pos, op);
      ExprIsTyped(g, pos + 1, UNARY_LEVEL);
    case LParen =>
      ParenthesizedCases(g, pos);
      ExprIsTyped(g, pos + 1, 0);
    case LBracket =>
      ListCases(g, pos);
      ItemsAreTyped(g, pos + 1, RBracket);
    case LBrace =>
      MapCases(g, pos);
      if Peek(g.ts, pos + 1) != RBrace { EntriesAreTyped(g, pos + 1, []); }
    case _ => AtomIsTyped(g, pos);
  }

  lemma AtomIsTyped(g: Reader, pos: nat)
    requires IsReader(g) && (Peek(g.ts, pos).Ident? ==> Peek(g.ts, pos + 1) != LParen)
    requires var t := Peek(g.ts, pos); !t.Op? && !t.LParen? && !t.LBracket? && !t.LBrace?
    ensures TypedTree(g.prefix(pos))
  {
    assert g.prefix(pos) == ParsePrefix(g.ts, pos, g.nums);
  }

  lemma {:induction false} ItemsAreTyped(g: Reader, pos: nat, close: Token)
    requires IsReader(g) && Closes(close)
    ensures g.items(pos, close).Ok? ==> AllTyped(g.items(pos, close).value.0)
    decreases |g.ts| - pos, 5
  {
    ItemsCases(g, pos, close);
    if Peek(g.ts, pos) != close { MoreAreTyped(g, pos, close, []); }
  }

  lemma {:induction false} MoreAreTyped(g: Reader, pos: nat, close: Token, done: seq<Expr>)
    requires IsReader(g) && Closes(close) && AllTyped(done)
    ensures g.more(pos, close, done).Ok? ==> AllTyped(g.more(pos, close, done).value.0)
    decreases |g.ts| - pos, 4
  {
    MoreCases(g, pos, close, done);
    if g.more(pos, close, done).Ok? {
      var (e, p) := g.expr(pos, 0).value;
      ExprIsTyped(g, pos, 0);
      if Peek(g.ts, p) == Comma { MoreAreTyped(g, p + 1, close, done + [e]); }
    }
  }

  lemma {:induction false} EntriesAreTyped(g: Reader, pos: nat, done: seq<MapEntry>)
    requires IsReader(g) && EntriesTyped(done)
    ensures g.entries(pos, done).Ok? ==> EntriesTyped(g.entries(pos, done).value.0)
    decreases |g.ts| - pos, 4
  {
    EntriesCases(g, pos, done);
    if g.entries(pos, done).Ok? {
      var (v, p) := g.expr(pos + 2, 0).value;
      ExprIsTyped(g, pos + 2, 0);
      if Peek(g.ts, p) == Comma { EntriesAreTyped(g, p + 1, done + [MapEntry(g.ts[pos].raw, v)]); }
    }
  }

  // Whatever text a tree was parsed from, its literals are typed.
  lemma ParsedIsTyped(s: string, e: Expr, nums: NumberSyntax)
    requires ParseExpression(s, nums) == Ok(e)
    ensures LiteralsTyped(e)
  {
    var ts := Tokenize(s).value;
    var g := ReaderOf(ts, nums);
    assert g.expr(0, 0) == ParseExpr(ts, 0, 0, nums);
    ExprIsTyped(g, 0, 0);
  }

  lemma ParsableIsTyped(e: Expr, nums: NumberSyntax)
    requires Parsable(e, nums)
    ensures LiteralsTyped(e)
  {
    TextRoundTrip(e, nums);
    ParsedIsTyped(PrintExpression(e, nums), e, nums);
  }
}
