// The precedence-climbing parser over tokens.
module Parser {
  import opened Values
  import opened Operators
  import opened Schema
  import opened Ast

  datatype Token =
    | Ident(raw: string) | Number(raw: string) | StringTok(raw: string) | BoolTok(b: bool) | NullTok
    | LParen | RParen | LBracket | RBracket | LBrace | RBrace | Comma | Colon | Question
    | Op(op: Operator) | End

  // Parsing and printing of doubles, as the number library does it.
  datatype NumberSyntax = NumberSyntax(parse: string -> Option<Float64>, show: Float64 -> string)

  function Precedence(op: BinOp): nat {
    match op
    case Or => 1
    case And => 2
    case Strict(Eq) | Strict(Ne) => 3
    case Strict(Lt) | Strict(Le) | Strict(Gt) | Strict(Ge) => 4
    case Strict(Add) | Strict(Sub) => 5
    case Strict(Mul) | Strict(Div) => 6
  }

  const UNARY_LEVEL: nat := 7

  predicate IsDigit(c: char) { '0' <= c <= '9' }

  predicate AllDigits(s: string) {
    s != "" && forall i | 0 <= i < |s| :: IsDigit(s[i])
  }

  function DigitsValue(s: string): nat
    requires forall i | 0 <= i < |s| :: IsDigit(s[i])
  {
    if s == "" then 0 else
    assert IsDigit(s[|s| - 1]);
    10 * DigitsValue(s[..|s| - 1]) + (s[|s| - 1] as int - '0' as int)
  }

  // A number with a point is a double; an integer is INT if it fits 32 bits and LONG if it fits 64.
  function NumberLiteral(raw: string, nums: NumberSyntax): Result<Expr> {
    if '.' in raw then
      match nums.parse(raw)
      case Some(d) => Ok(LiteralExpr(Double(d), DoubleT))
      case None => Err(ExpressionInvalid)
    else if !AllDigits(raw) || DigitsValue(raw) >= TWO63 then Err(ExpressionInvalid)
    else IntegerLiteral(DigitsValue(raw))
  }

  const INT_LIMIT: nat := 0x8000_0000

  function IntegerLiteral(n: nat): Result<Expr>
    requires n < TWO63
  {
    Ok(if n < INT_LIMIT then LiteralExpr(Int(n), IntT) else LiteralExpr(Long(n), LongT))
  }

  function Split(s: string): (parts: seq<string>)
    ensures |parts| >= 1
  {
    if '.' !in s then [s]
    else if s[0] == '.' then [""] + Split(s[1..])
    else
      var rest := Split(s[1..]);
      [[s[0]] + rest[0]] + rest[1..]
  }

  // Identifiers hold no white space, so there is nothing to trim.
  function ParseFactorRef(raw: string): Result<FactorRef> {
    var parts := Split(raw);
    if "" in parts then Err(FactorRefInvalid) else Ok(FactorRef(parts[0], parts[1..]))
  }

  function Peek(ts: seq<Token>, pos: nat): Token {
    if pos < |ts| then ts[pos] else End
  }

  type Parsed<T> = Result<(T, nat)>

  // A parse that succeeds has consumed something and stays within the tokens.
  ghost predicate Consumes<T>(r: Parsed<T>, pos: nat, ts: seq<Token>) {
    r.Ok? ==> pos < r.value.1 <= |ts|
  }

  function Expect(ts: seq<Token>, pos: nat, t: Token): (r: Result<nat>)
    requires !t.End?
    ensures r.Ok? ==> r.value == pos + 1 <= |ts|
  {
    if Peek(ts, pos) == t then Ok(pos + 1) else Err(ExpressionInvalid)
  }

  function ParseExpr(ts: seq<Token>, pos: nat, minPrec: nat, nums: NumberSyntax): (r: Parsed<Expr>)
    ensures Consumes(r, pos, ts)
    decreases |ts| - pos, 2
  {
    var (left, p) :- ParsePrefix(ts, pos, nums);
    ParseLoop(ts, p, left, minPrec, nums)
  }

  // Extends what has been parsed by conditionals and by operators that bind at least as tightly as asked.
  function ParseLoop(ts: seq<Token>, pos: nat, left: Expr, minPrec: nat, nums: NumberSyntax): (r: Parsed<Expr>)
    requires pos <= |ts|
    ensures r.Ok? ==> pos <= r.value.1 <= |ts|
    decreases |ts| - pos, 0
  {
    match Peek(ts, pos)
    case Question =>
      if minPrec > 0 then Ok((left, pos)) else
      var (thn, p1) :- ParseExpr(ts, pos + 1, 0, nums);
      var p2 :- Expect(ts, p1, Colon);
      var (els, p3) :- ParseExpr(ts, p2, 0, nums);
      ParseLoop(ts, p3, ConditionalExpr(left, thn, els), minPrec, nums)
    case Op(Binary(bop)) =>
      if Precedence(bop) < minPrec then Ok((left, pos)) else
      var (right, p) :- ParseExpr(ts, pos + 1, Precedence(bop) + 1, nums);
      ParseLoop(ts, p, BinaryExpr(Binary(bop), left, right), minPrec, nums)
    case _ => Ok((left, pos))
  }

  function ParsePrefix(ts: seq<Token>, pos: nat, nums: NumberSyntax): (r: Parsed<Expr>)
    ensures Consumes(r, pos, ts)
    decreases |ts| - pos, 1
  {
    match Peek(ts, pos)
    case Ident(raw) =>
      if Peek(ts, pos + 1) == LParen then
        var (args, p) :- ParseItems(ts, pos + 2, RParen, nums);
        Ok((FunctionCallExpr(raw, args), p))
      else
        var ref :- ParseFactorRef(raw);
        Ok((FactorRefExpr(ref), pos + 1))
    case Number(raw) =>
      var e :- NumberLiteral(raw, nums);
      Ok((e, pos + 1))
    case StringTok(raw) => Ok((LiteralExpr(Str(raw), StringT), pos + 1))
    case BoolTok(b) => Ok((LiteralExpr(Bool(b), BoolT), pos + 1))
    case NullTok => Ok((LiteralExpr(Null, NullT), pos + 1))
    case Op(op) =>
      if UnaryOperator(op).None? then Err(ExpressionInvalid) else
      var (e, p) :- ParseExpr(ts, pos + 1, UNARY_LEVEL, nums);
      Ok((UnaryExpr(op, e), p))
    case LParen =>
      var (e, p) :- ParseExpr(ts, pos + 1, 0, nums);
      var p' :- Expect(ts, p, RParen);
      Ok((e, p'))
    case LBracket =>
      var (es, p) :- ParseItems(ts, pos + 1, RBracket, nums);
      Ok((ListExpr(es), p))
    case LBrace =>
      if Peek(ts, pos + 1) == RBrace then Ok((MapExpr([]), pos + 2)) else
      var (es, p) :- ParseEntries(ts, pos + 1, [], nums);
      Ok((MapExpr(es), p))
    case _ => Err(ExpressionInvalid)
  }

  // Comma-separated expressions up to and including the closing token.
  function ParseItems(ts: seq<Token>, pos: nat, close: Token, nums: NumberSyntax): (r: Parsed<seq<Expr>>)
    requires close == RParen || close == RBracket
    ensures Consumes(r, pos, ts)
    decreases |ts| - pos, 4
  {
    if Peek(ts, pos) == close then Ok(([], pos + 1)) else ParseMoreItems(ts, pos, close, [], nums)
  }

  function ParseMoreItems(ts: seq<Token>, pos: nat, close: Token, done: seq<Expr>,
                          nums: NumberSyntax): (r: Parsed<seq<Expr>>)
    requires close == RParen || close == RBracket
    ensures Consumes(r, pos, ts)
    decreases |ts| - pos, 3
  {
    var (e, p) :- ParseExpr(ts, pos, 0, nums);
    if Peek(ts, p) == Comma then ParseMoreItems(ts, p + 1, close, done + [e], nums)
    else
      var p' :- Expect(ts, p, close);
      Ok((done + [e], p'))
  }

  function ParseEntries(ts: seq<Token>, pos: nat, done: seq<MapEntry>, nums: NumberSyntax): (r: Parsed<seq<MapEntry>>)
    ensures Consumes(r, pos, ts)
    decreases |ts| - pos, 3
  {
    if !Peek(ts, pos).StringTok? then Err(ExpressionInvalid) else
    var p1 :- Expect(ts, pos + 1, Colon);
    var (v, p2) :- ParseExpr(ts, p1, 0, nums);
    var done' := done + [MapEntry(ts[pos].raw, v)];
    if Peek(ts, p2) == Comma then ParseEntries(ts, p2 + 1, done', nums)
    else
      var p3 :- Expect(ts, p2, RBrace);
      Ok((done', p3))
  }

  // A whole expression: nothing but the end may follow.
  function ParseTokens(ts: seq<Token>, nums: NumberSyntax): Result<Expr> {
    var (e, p) :- ParseExpr(ts, 0, 0, nums);
    if Peek(ts, p).End? then Ok(e) else Err(ExpressionInvalid)
  }

  // A method's result and the position it left agree with the specification.
  ghost predicate Matches<T>(r: Result<T>, pos: nat, spec: Parsed<T>) {
    match spec
    case Ok((x, p)) => r == Ok(x) && pos == p
    case Err(c) => r == Err(c)
  }

  // The parser as the source has it: a position that the methods advance.
  class ExpressionParser {
    const tokens: seq<Token>
    const nums: NumberSyntax
    var pos: nat

    constructor (tokens: seq<Token>, nums: NumberSyntax)
      ensures this.tokens == tokens && this.nums == nums && pos == 0
    {
      this.tokens, this.nums, pos := tokens, nums, 0;
    }

    method Consume() returns (t: Token)
      modifies this
      ensures t == Peek(tokens, old(pos)) && pos == if old(pos) < |tokens| then old(pos) + 1 else old(pos)
    {
      t := Peek(tokens, pos);
      if pos < |tokens| { pos := pos + 1; }
    }

    method ParseExpression(minPrec: nat) returns (r: Result<Expr>)
      modifies this
      ensures Matches(r, pos, ParseExpr(tokens, old(pos), minPrec, nums))
      decreases |tokens| - pos, 2
    {
      ghost var start := pos;
      r := ParseOperand();
      if r.Err? { return; }
      var left := r.value;
      while true
        invariant start < pos <= |tokens|
        invariant ParseExpr(tokens, start, minPrec, nums) == ParseLoop(tokens, pos, left, minPrec, nums)
        decreases |tokens| - pos
      {
        var next := Peek(tokens, pos);
        if next.Question? {
          if minPrec > 0 { break; }
          var _ := Consume();
          var thn := ParseExpression(0);
          if thn.Err? { return thn; }
          var colon := Consume();
          if colon != Colon { return Err(ExpressionInvalid); }
          var els := ParseExpression(0);
          if els.Err? { return els; }
          left := ConditionalExpr(left, thn.value, els.value);
          continue;
        }
        if !next.Op? || next.op.Bang? || Precedence(next.op.op) < minPrec { break; }
        var _ := Consume();
        var right := ParseExpression(Precedence(next.op.op) + 1);
        if right.Err? { return right; }
        left := BinaryExpr(next.op, left, right.value);
      }
      return Ok(left);
    }

    method ParseOperand() returns (r: Result<Expr>)
      modifies this
      ensures Matches(r, pos, ParsePrefix(tokens, old(pos), nums))
      decreases |tokens| - pos, 1
    {
      var tok := Consume();
      match tok {
        case Ident(raw) =>
          if Peek(tokens, pos).LParen? {
            var _ := Consume();
            var args := ParseElements(RParen);
            if args.Err? { return Err(args.code); }
            return Ok(FunctionCallExpr(raw, args.value));
          }
          var ref := ParseFactorRef(raw);
          return if ref.Err? then Err(ref.code) else Ok(FactorRefExpr(ref.value));
        case Number(raw) => return NumberLiteral(raw, nums);
        case StringTok(raw) => return Ok(LiteralExpr(Str(raw), StringT));
        case BoolTok(b) => return Ok(LiteralExpr(Bool(b), BoolT));
        case NullTok => return Ok(LiteralExpr(Null, NullT));
        case Op(op) =>
          if UnaryOperator(op).None? { return Err(ExpressionInvalid); }
          var e := ParseExpression(UNARY_LEVEL);
          return if e.Err? then e else Ok(UnaryExpr(op, e.value));
        case LParen =>
          var e := ParseExpression(0);
          if e.Err? { return e; }
          var close := Consume();
          return if close == RParen then e else Err(ExpressionInvalid);
        case LBracket =>
          var es := ParseElements(RBracket);
          return if es.Err? then Err(es.code) else Ok(ListExpr(es.value));
        case LBrace =>
          var es := ParseMapLiteral();
          return if es.Err? then Err(es.code) else Ok(MapExpr(es.value));
        case _ => return Err(ExpressionInvalid);
      }
    }

    // The element loops of list literals and function calls.
    method ParseElements(close: Token) returns (r: Result<seq<Expr>>)
      requires (close == RParen || close == RBracket) && pos <= |tokens|
      modifies this
      ensures Matches(r, pos, ParseItems(tokens, old(pos), close, nums))
      decreases |tokens| - pos, 4
    {
      ghost var start := pos;
      if Peek(tokens, pos) == close {
        var _ := Consume();
        return Ok([]);
      }
      var items: seq<Expr> := [];
      while true
        invariant start <= pos <= |tokens|
        invariant ParseItems(tokens, start, close, nums) == ParseMoreItems(tokens, pos, close, items, nums)
        decreases |tokens| - pos
      {
        var e := ParseExpression(0);
        if e.Err? { return Err(e.code); }
        items := items + [e.value];
        if Peek(tokens, pos) != Comma { break; }
        var _ := Consume();
      }
      var t := Consume();
      return if t == close then Ok(items) else Err(ExpressionInvalid);
    }

    method ParseMapLiteral() returns (r: Result<seq<MapEntry>>)
      modifies this
      ensures Matches(r, pos, if Peek(tokens, old(pos)) == RBrace then Ok(([], old(pos) + 1))
                              else ParseEntries(tokens, old(pos), [], nums))
      decreases |tokens| - pos, 4
    {
      ghost var start := pos;
      if Peek(tokens, pos) == RBrace {
        var _ := Consume();
        return Ok([]);
      }
      var entries: seq<MapEntry> := [];
      while true
        invariant start <= pos
        invariant ParseEntries(tokens, start, [], nums) == ParseEntries(tokens, pos, entries, nums)
        decreases |tokens| - pos
      {
        var key := Consume();
        if !key.StringTok? { return Err(ExpressionInvalid); }
        var colon := Consume();
        if colon != Colon { return Err(ExpressionInvalid); }
        var v := ParseExpression(0);
        if v.Err? { return Err(v.code); }
        entries := entries + [MapEntry(key.raw, v.value)];
        if Peek(tokens, pos) != Comma { break; }
        var _ := Consume();
      }
      var t := Consume();
      return if t == RBrace then Ok(entries) else Err(ExpressionInvalid);
    }
  }
}
