// Printing syntax trees with as few parentheses as precedence allows, and parsing them back.
module Printer {
  import opened Values
  import opened Operators
  import opened Schema
  import opened Ast
  import opened Parser
  import opened Tokenizer

  // How tightly the outermost construct of a tree binds.
  function Level(e: Expr): nat {
    match e
    case ConditionalExpr(_, _, _) => 0
    case BinaryExpr(Binary(bop), _, _) => Precedence(bop)
    case UnaryExpr(_, _) => UNARY_LEVEL
    case _ => UNARY_LEVEL + 1
  }

  function Digits(n: nat): (s: string)
    ensures AllDigits(s)
  {
    if n < 10 then [('0' as int + n) as char] else Digits(n / 10) + [('0' as int + n % 10) as char]
  }

  function Join(parts: seq<string>): string
    requires parts != []
  {
    if |parts| == 1 then parts[0] else parts[0] + "." + Join(parts[1..])
  }

  function PrintLiteral(v: Value, nums: NumberSyntax): Token {
    match v
    case Null => NullTok
    case Bool(b) => BoolTok(b)
    case Str(s) => StringTok(s)
    case Int(i) => Number(Digits(if i < 0 then 0 else i))
    case Long(l) => Number(Digits(if l < 0 then 0 else l))
    case Double(d) => Number(nums.show(d))
    case _ => NullTok
  }

  // A tree printed where only constructs of at least this level may stand bare.
  function Print(e: Expr, level: nat, nums: NumberSyntax): (ts: seq<Token>)
    ensures |ts| >= 1
    decreases e, 1
  {
    if Level(e) < level then [LParen] + PrintBare(e, nums) + [RParen] else PrintBare(e, nums)
  }

  function PrintBare(e: Expr, nums: NumberSyntax): (ts: seq<Token>)
    ensures |ts| >= 1
    decreases e, 0
  {
    match e
    case LiteralExpr(v, _) => [PrintLiteral(v, nums)]
    case FactorRefExpr(ref) => [Ident(Join([ref.code] + ref.path))]
    case ConditionalExpr(c, t, f) => Print(c, 1, nums) + [Question] + Print(t, 0, nums) + [Colon] + Print(f, 0, nums)
    case FunctionCallExpr(name, args) => [Ident(name)] + [LParen] + PrintItems(args, nums) + [RParen]
    case ListExpr(es) => [LBracket] + PrintItems(es, nums) + [RBracket]
    case MapExpr(es) => [LBrace] + PrintEntries(es, nums) + [RBrace]
    case UnaryExpr(op, x) => [Op(op)] + Print(x, UNARY_LEVEL, nums)
    case BinaryExpr(op, l, r) =>
      var p := if op.Bang? then 0 else Precedence(op.op);
      Print(l, p, nums) + [Op(op)] + Print(r, p + 1, nums)
  }

  function PrintItems(es: seq<Expr>, nums: NumberSyntax): seq<Token>
    decreases es, 0
  {
    if es == [] then []
    else if |es| == 1 then PrintItem(es[0], nums)
    else PrintItem(es[0], nums) + [Comma] + PrintItems(es[1..], nums)
  }

  function PrintItem(e: Expr, nums: NumberSyntax): seq<Token>
    decreases e, 2
  {
    Print(e, 0, nums)
  }

  function PrintEntries(es: seq<MapEntry>, nums: NumberSyntax): seq<Token>
    decreases es, 0
  {
    if es == [] then []
    else if |es| == 1 then PrintEntry(es[0], nums)
    else PrintEntry(es[0], nums) + [Comma] + PrintEntries(es[1..], nums)
  }

  function PrintEntry(e: MapEntry, nums: NumberSyntax): seq<Token>
    decreases e, 0
  {
    [StringTok(e.key), Colon] + Print(e.value, 0, nums)
  }

  // Trees the parser can build from text: literals as tokens give them, names that are no keywords,
  // strings that can be quoted, operators where they belong.
  predicate ParsableLiteral(v: Value, t: ValueType, nums: NumberSyntax) {
    match v
    case Null => t.NullT?
    case Bool(_) => t.BoolT?
    case Str(s) => t.StringT? && Writable(StringTok(s))
    case Int(i) => t.IntT? && 0 <= i < INT_LIMIT
    case Long(l) => t.LongT? && INT_LIMIT <= l
    case Double(d) =>
      t.DoubleT? && IsNumeral(nums.show(d)) && '.' in nums.show(d) && nums.parse(nums.show(d)) == Some(d)
    case _ => false
  }

  predicate ParsableRef(ref: FactorRef) {
    IsName(Join([ref.code] + ref.path)) && ref.code != "" && '.' !in ref.code &&
    forall i | 0 <= i < |ref.path| :: ref.path[i] != "" && '.' !in ref.path[i]
  }

  predicate ParsableAll(es: seq<Expr>, nums: NumberSyntax) {
    forall i | 0 <= i < |es| :: Parsable(es[i], nums)
  }

  predicate ParsableEntries(es: seq<MapEntry>, nums: NumberSyntax) {
    forall i | 0 <= i < |es| :: Writable(StringTok(es[i].key)) && Parsable(es[i].value, nums)
  }

  predicate Parsable(e: Expr, nums: NumberSyntax)
    decreases e
  {
    match e
    case LiteralExpr(v, t) => ParsableLiteral(v, t, nums)
    case FactorRefExpr(ref) => ParsableRef(ref)
    case ConditionalExpr(c, t, f) => Parsable(c, nums) && Parsable(t, nums) && Parsable(f, nums)
    case FunctionCallExpr(name, args) => IsName(name) && forall i | 0 <= i < |args| :: Parsable(args[i], nums)
    case ListExpr(es) => forall i | 0 <= i < |es| :: Parsable(es[i], nums)
    case MapExpr(es) => forall i | 0 <= i < |es| :: Writable(StringTok(es[i].key)) && Parsable(es[i].value, nums)
    case UnaryExpr(op, x) => UnaryOperator(op).Some? && Parsable(x, nums)
    case BinaryExpr(op, l, r) => op.Binary? && Parsable(l, nums) && Parsable(r, nums)
  }

  // Tokens that may follow a tree printed at a level without becoming part of it.
  predicate MayFollow(t: Token, level: nat) {
    !t.LParen? && !(t.Question? && level == 0) && !(t.Op? && t.op.Binary? && Precedence(t.op.op) > level) &&
    !(t.Op? && level == 0 && t.op.Binary?)
  }

  ghost predicate At(ts: seq<Token>, pos: nat, part: seq<Token>) {
    pos + |part| <= |ts| && ts[pos..pos + |part|] == part
  }

  lemma AtConcat(ts: seq<Token>, pos: nat, a: seq<Token>, b: seq<Token>)
    requires At(ts, pos, a + b)
    ensures At(ts, pos, a) && At(ts, pos + |a|, b)
  {
    assert ts[pos..pos + |a|] == ts[pos..pos + |a + b|][..|a|] == a;
    assert ts[pos + |a|..pos + |a| + |b|] == ts[pos..pos + |a + b|][|a|..] == b;
  }

  lemma AtOne(ts: seq<Token>, pos: nat, t: Token)
    requires At(ts, pos, [t])
    ensures pos < |ts| && Peek(ts, pos) == t
  {
    assert ts[pos] == ts[pos..pos + 1][0];
  }

  lemma {:induction false} DigitsParse(n: nat)
    ensures DigitsValue(Digits(n)) == n
  {
    if n >= 10 {
      DigitsParse(n / 10);
      assert Digits(n)[..|Digits(n)| - 1] == Digits(n / 10);
    } else {
      assert Digits(n)[..0] == "";
    }
  }

  lemma {:induction false} SplitJoin(parts: seq<string>)
    requires parts != [] && forall i | 0 <= i < |parts| :: '.' !in parts[i]
    ensures Split(Join(parts)) == parts
    decreases |parts|
  {
    if |parts| > 1 {
      SplitJoin(parts[1..]);
      SplitPrefix(parts[0], Join(parts[1..]));
      assert parts == [parts[0]] + parts[1..];
    }
  }

  lemma {:induction false} SplitPrefix(part: string, rest: string)
    requires '.' !in part
    ensures Split(part + "." + rest) == [part] + Split(rest)
  {
    var s := part + "." + rest;
    assert s[|part|] == '.';
    if part == "" {
      assert s[1..] == rest;
    } else {
      assert s[1..] == part[1..] + "." + rest;
      SplitPrefix(part[1..], rest);
      assert [part[0]] + part[1..] == part;
      assert ([part[1..]] + Split(rest))[1..] == Split(rest);
    }
  }

  lemma RefParses(ref: FactorRef)
    requires ParsableRef(ref)
    ensures ParseFactorRef(Join([ref.code] + ref.path)) == Ok(ref)
  {
    var parts := [ref.code] + ref.path;
    SplitJoin(parts);
    assert parts[1..] == ref.path;
  }

  // Where each part of a printed tree lies: the tokens from pos up to end are the tree's printing.
  ghost predicate Laid(e: Expr, level: nat, ts: seq<Token>, pos: nat, end: nat, nums: NumberSyntax)
    ensures Laid(e, level, ts, pos, end, nums) ==> pos < end <= |ts|
    decreases e, 1
  {
    if Level(e) < level then
      Peek(ts, pos) == LParen && pos < end && LaidBare(e, ts, pos + 1, end - 1, nums) && Peek(ts, end - 1) == RParen
    else LaidBare(e, ts, pos, end, nums)
  }

  ghost predicate LaidBare(e: Expr, ts: seq<Token>, pos: nat, end: nat, nums: NumberSyntax)
    ensures LaidBare(e, ts, pos, end, nums) ==> pos < end <= |ts|
    decreases e, 0
  {
    match e
    case LiteralExpr(v, _) => pos < |ts| && end == pos + 1 && ts[pos] == PrintLiteral(v, nums)
    case FactorRefExpr(ref) => pos < |ts| && end == pos + 1 && ts[pos] == Ident(Join([ref.code] + ref.path))
    case ConditionalExpr(c, t, f) =>
      exists p: nat, q: nat {:trigger Laid(c, 1, ts, pos, p, nums), LaidAfter(Question, t, 0, ts, p, q, nums)} ::
        Laid(c, 1, ts, pos, p, nums) && LaidAfter(Question, t, 0, ts, p, q, nums) &&
        LaidAfter(Colon, f, 0, ts, q, end, nums)
    case FunctionCallExpr(name, args) =>
      Peek(ts, pos) == Ident(name) && Peek(ts, pos + 1) == LParen &&
      pos + 2 < end && LaidItems(args, ts, pos + 2, end - 1, nums) && Peek(ts, end - 1) == RParen
    case ListExpr(es) =>
      Peek(ts, pos) == LBracket && pos + 1 < end && LaidItems(es, ts, pos + 1, end - 1, nums) &&
      Peek(ts, end - 1) == RBracket
    case MapExpr(es) =>
      Peek(ts, pos) == LBrace && pos + 1 < end && LaidEntries(es, ts, pos + 1, end - 1, nums) &&
      Peek(ts, end - 1) == RBrace
    case UnaryExpr(op, x) => Peek(ts, pos) == Op(op) && Laid(x, UNARY_LEVEL, ts, pos + 1, end, nums)
    case BinaryExpr(op, l, r) =>
      var q := if op.Bang? then 0 else Precedence(op.op);
      exists p: nat {:trigger Laid(l, q, ts, pos, p, nums)} ::
        Laid(l, q, ts, pos, p, nums) && LaidAfter(Op(op), r, q + 1, ts, p, end, nums)
  }

  ghost predicate LaidAfter(t: Token, e: Expr, level: nat, ts: seq<Token>, pos: nat, end: nat, nums: NumberSyntax)
    ensures LaidAfter(t, e, level, ts, pos, end, nums) ==> pos < end <= |ts|
    decreases e, 2
  {
    Peek(ts, pos) == t && Laid(e, level, ts, pos + 1, end, nums)
  }

  ghost predicate LaidItems(es: seq<Expr>, ts: seq<Token>, pos: nat, end: nat, nums: NumberSyntax)
    ensures LaidItems(es, ts, pos, end, nums) ==> pos <= end
    decreases es, 0
  {
    if es == [] then end == pos
    else if |es| == 1 then LaidItem(es[0], ts, pos, end, nums)
    else exists p: nat {:trigger LaidItem(es[0], ts, pos, p, nums)} ::
      LaidItem(es[0], ts, pos, p, nums) && Peek(ts, p) == Comma && LaidItems(es[1..], ts, p + 1, end, nums)
  }

  ghost predicate LaidItem(e: Expr, ts: seq<Token>, pos: nat, end: nat, nums: NumberSyntax)
    ensures LaidItem(e, ts, pos, end, nums) ==> pos < end <= |ts|
    decreases e, 2
  {
    Laid(e, 0, ts, pos, end, nums)
  }

  ghost predicate LaidEntries(es: seq<MapEntry>, ts: seq<Token>, pos: nat, end: nat, nums: NumberSyntax)
    ensures LaidEntries(es, ts, pos, end, nums) ==> pos <= end
    decreases es, 0
  {
    if es == [] then end == pos
    else if |es| == 1 then LaidEntry(es[0], ts, pos, end, nums)
    else exists p: nat {:trigger LaidEntry(es[0], ts, pos, p, nums)} ::
      LaidEntry(es[0], ts, pos, p, nums) && Peek(ts, p) == Comma && LaidEntries(es[1..], ts, p + 1, end, nums)
  }

  ghost predicate LaidEntry(e: MapEntry, ts: seq<Token>, pos: nat, end: nat, nums: NumberSyntax)
    ensures LaidEntry(e, ts, pos, end, nums) ==> pos < end <= |ts|
    decreases e, 0
  {
    Peek(ts, pos) == StringTok(e.key) && Peek(ts, pos + 1) == Colon && Laid(e.value, 0, ts, pos + 2, end, nums)
  }

  lemma {:induction false} PrintedIsLaid(e: Expr, level: nat, ts: seq<Token>, pos: nat, nums: NumberSyntax)
    requires At(ts, pos, Print(e, level, nums))
    ensures Laid(e, level, ts, pos, pos + |Print(e, level, nums)|, nums)
    decreases e, 2
  {
    if Level(e) < level {
      BracketLayout([LParen], PrintBare(e, nums), RParen, ts, pos);
      AtOne(ts, pos, LParen);
      BareIsLaid(e, ts, pos + 1, nums);
    } else {
      BareIsLaid(e, ts, pos, nums);
    }
  }

  lemma {:induction false} BareIsLaid(e: Expr, ts: seq<Token>, pos: nat, nums: NumberSyntax)
    requires At(ts, pos, PrintBare(e, nums))
    ensures LaidBare(e, ts, pos, pos + |PrintBare(e, nums)|, nums)
    decreases e, 1
  {
    match e
    case LiteralExpr(v, _) => AtOne(ts, pos, PrintLiteral(v, nums));
    case FactorRefExpr(ref) => AtOne(ts, pos, Ident(Join([ref.code] + ref.path)));
    case ConditionalExpr(_, _, _) => ConditionalIsLaid(e, ts, pos, nums);
    case FunctionCallExpr(_, _) => CallIsLaid(e, ts, pos, nums);
    case ListExpr(es) =>
      BracketLayout([LBracket], PrintItems(es, nums), RBracket, ts, pos);
      AtOne(ts, pos, LBracket);
      ItemsAreLaid(es, ts, pos + 1, nums);
    case MapExpr(_) => MapIsLaid(e, ts, pos, nums);
    case UnaryExpr(op, x) => UnaryIsLaid(e, ts, pos, nums);
    case BinaryExpr(_, _, _) => BinaryIsLaid(e, ts, pos, nums);
  }

  lemma {:induction false} ConditionalIsLaid(e: Expr, ts: seq<Token>, pos: nat, nums: NumberSyntax)
    requires e.ConditionalExpr? && At(ts, pos, PrintBare(e, nums))
    ensures LaidBare(e, ts, pos, pos + |PrintBare(e, nums)|, nums)
    decreases e, 0
  {
    var c, t, f := Print(e.cond, 1, nums), Print(e.thn, 0, nums), Print(e.els, 0, nums);
    ConditionalLayout(c, t, f, ts, pos);
    PrintedIsLaid(e.cond, 1, ts, pos, nums);
    PrintedIsLaid(e.thn, 0, ts, pos + |c| + 1, nums);
    PrintedIsLaid(e.els, 0, ts, pos + |c| + 1 + |t| + 1, nums);
    assert LaidAfter(Question, e.thn, 0, ts, pos + |c|, pos + |c| + 1 + |t|, nums);
  }

  lemma {:induction false} CallIsLaid(e: Expr, ts: seq<Token>, pos: nat, nums: NumberSyntax)
    requires e.FunctionCallExpr? && At(ts, pos, PrintBare(e, nums))
    ensures LaidBare(e, ts, pos, pos + |PrintBare(e, nums)|, nums)
    decreases e, 0
  {
    BracketLayout([Ident(e.name)] + [LParen], PrintItems(e.args, nums), RParen, ts, pos);
    AtConcat(ts, pos, [Ident(e.name)], [LParen]);
    AtOne(ts, pos, Ident(e.name));
    AtOne(ts, pos + 1, LParen);
    ItemsAreLaid(e.args, ts, pos + 2, nums);
  }

  lemma {:induction false} MapIsLaid(e: Expr, ts: seq<Token>, pos: nat, nums: NumberSyntax)
    requires e.MapExpr? && At(ts, pos, PrintBare(e, nums))
    ensures LaidBare(e, ts, pos, pos + |PrintBare(e, nums)|, nums)
    decreases e, 0
  {
    BracketLayout([LBrace], PrintEntries(e.entries, nums), RBrace, ts, pos);
    AtOne(ts, pos, LBrace);
    EntriesAreLaid(e.entries, ts, pos + 1, nums);
  }

  lemma {:induction false} UnaryIsLaid(e: Expr, ts: seq<Token>, pos: nat, nums: NumberSyntax)
    requires e.UnaryExpr? && At(ts, pos, PrintBare(e, nums))
    ensures LaidBare(e, ts, pos, pos + |PrintBare(e, nums)|, nums)
    decreases e, 0
  {
    AtConcat(ts, pos, [Op(e.uop)], Print(e.operand, UNARY_LEVEL, nums));
    AtOne(ts, pos, Op(e.uop));
    PrintedIsLaid(e.operand, UNARY_LEVEL, ts, pos + 1, nums);
  }

  lemma {:induction false} BinaryIsLaid(e: Expr, ts: seq<Token>, pos: nat, nums: NumberSyntax)
    requires e.BinaryExpr? && At(ts, pos, PrintBare(e, nums))
    ensures LaidBare(e, ts, pos, pos + |PrintBare(e, nums)|, nums)
    decreases e, 0
  {
    var q := if e.op.Bang? then 0 else Precedence(e.op.op);
    var l := Print(e.left, q, nums);
    BinaryLayout(l, e.op, Print(e.right, q + 1, nums), ts, pos);
    PrintedIsLaid(e.left, q, ts, pos, nums);
    PrintedIsLaid(e.right, q + 1, ts, pos + |l| + 1, nums);
    assert LaidAfter(Op(e.op), e.right, q + 1, ts, pos + |l|, pos + |PrintBare(e, nums)|, nums);
  }

  lemma {:induction false} ItemsAreLaid(es: seq<Expr>, ts: seq<Token>, pos: nat, nums: NumberSyntax)
    requires At(ts, pos, PrintItems(es, nums))
    ensures LaidItems(es, ts, pos, pos + |PrintItems(es, nums)|, nums)
    decreases es, 0
  {
    if |es| == 1 {
      ItemIsLaid(es[0], ts, pos, nums);
    } else if es != [] {
      var first := PrintItem(es[0], nums);
      CommaLayout(first, PrintItems(es[1..], nums), ts, pos);
      ItemIsLaid(es[0], ts, pos, nums);
      ItemsAreLaid(es[1..], ts, pos + |first| + 1, nums);
    }
  }

  lemma {:induction false} ItemIsLaid(e: Expr, ts: seq<Token>, pos: nat, nums: NumberSyntax)
    requires At(ts, pos, PrintItem(e, nums))
    ensures LaidItem(e, ts, pos, pos + |PrintItem(e, nums)|, nums)
    decreases e, 3
  {
    PrintedIsLaid(e, 0, ts, pos, nums);
  }

  lemma {:induction false} EntriesAreLaid(es: seq<MapEntry>, ts: seq<Token>, pos: nat, nums: NumberSyntax)
    requires At(ts, pos, PrintEntries(es, nums))
    ensures LaidEntries(es, ts, pos, pos + |PrintEntries(es, nums)|, nums)
    decreases es, 0
  {
    if |es| == 1 {
      EntryIsLaid(es[0], ts, pos, nums);
    } else if es != [] {
      var first := PrintEntry(es[0], nums);
      CommaLayout(first, PrintEntries(es[1..], nums), ts, pos);
      EntryIsLaid(es[0], ts, pos, nums);
      EntriesAreLaid(es[1..], ts, pos + |first| + 1, nums);
    }
  }

  lemma {:induction false} EntryIsLaid(e: MapEntry, ts: seq<Token>, pos: nat, nums: NumberSyntax)
    requires At(ts, pos, PrintEntry(e, nums))
    ensures LaidEntry(e, ts, pos, pos + |PrintEntry(e, nums)|, nums)
    decreases e, 0
  {
    EntryLayout(e.key, Print(e.value, 0, nums), ts, pos);
    PrintedIsLaid(e.value, 0, ts, pos + 2, nums);
  }

  lemma ConditionalLayout(c: seq<Token>, t: seq<Token>, f: seq<Token>, ts: seq<Token>, pos: nat)
    requires At(ts, pos, c + [Question] + t + [Colon] + f)
    ensures At(ts, pos, c) && At(ts, pos + |c| + 1, t) && At(ts, pos + |c| + 1 + |t| + 1, f)
    ensures Peek(ts, pos + |c|) == Question && Peek(ts, pos + |c| + 1 + |t|) == Colon
  {
    AtConcat(ts, pos, c + [Question] + t + [Colon], f);
    AtConcat(ts, pos, c + [Question] + t, [Colon]);
    AtConcat(ts, pos, c + [Question], t);
    AtConcat(ts, pos, c, [Question]);
    AtOne(ts, pos + |c|, Question);
    AtOne(ts, pos + |c| + 1 + |t|, Colon);
  }

  lemma BinaryLayout(l: seq<Token>, op: Operator, r: seq<Token>, ts: seq<Token>, pos: nat)
    requires At(ts, pos, l + [Op(op)] + r)
    ensures At(ts, pos, l) && Peek(ts, pos + |l|) == Op(op) && At(ts, pos + |l| + 1, r)
  {
    AtConcat(ts, pos, l + [Op(op)], r);
    AtConcat(ts, pos, l, [Op(op)]);
    AtOne(ts, pos + |l|, Op(op));
  }

  lemma BracketLayout(open: seq<Token>, items: seq<Token>, close: Token, ts: seq<Token>, pos: nat)
    requires At(ts, pos, open + items + [close])
    ensures At(ts, pos, open) && At(ts, pos + |open|, items) && Peek(ts, pos + |open| + |items|) == close
    ensures pos + |open| + |items| < |ts|
  {
    AtConcat(ts, pos, open + items, [close]);
    AtConcat(ts, pos, open, items);
    AtOne(ts, pos + |open| + |items|, close);
  }

  lemma CommaLayout(l: seq<Token>, r: seq<Token>, ts: seq<Token>, pos: nat)
    requires At(ts, pos, l + [Comma] + r)
    ensures At(ts, pos, l) && Peek(ts, pos + |l|) == Comma && At(ts, pos + |l| + 1, r)
  {
    AtConcat(ts, pos, l + [Comma], r);
    AtConcat(ts, pos, l, [Comma]);
    AtOne(ts, pos + |l|, Comma);
  }

  lemma EntryLayout(key: string, value: seq<Token>, ts: seq<Token>, pos: nat)
    requires At(ts, pos, [StringTok(key), Colon] + value)
    ensures Peek(ts, pos) == StringTok(key) && Peek(ts, pos + 1) == Colon && At(ts, pos + 2, value)
  {
    AtConcat(ts, pos, [StringTok(key), Colon], value);
    assert ts[pos..pos + 2][0] == StringTok(key) && ts[pos..pos + 2][1] == Colon;
  }

  // The parser's functions on one token sequence, as values: the proofs below look inside them only
  // where IsReader is used.
  datatype Reader = Reader(
    ts: seq<Token>, nums: NumberSyntax,
    expr: (nat, nat) -> Parsed<Expr>,
    loop: (nat, Expr, nat) -> Parsed<Expr>,
    prefix: nat -> Parsed<Expr>,
    items: (nat, Token) -> Parsed<seq<Expr>>,
    more: (nat, Token, seq<Expr>) -> Parsed<seq<Expr>>,
    entries: (nat, seq<MapEntry>) -> Parsed<seq<MapEntry>>)

  ghost predicate IsReader(r: Reader) {
    (forall pos, minPrec {:trigger ParseExpr(r.ts, pos, minPrec, r.nums)} ::
       r.expr(pos, minPrec) == ParseExpr(r.ts, pos, minPrec, r.nums)) &&
    (forall pos: nat, e, minPrec: nat {:trigger ParseLoop(r.ts, pos, e, minPrec, r.nums)} | pos <= |r.ts| ::
       r.loop(pos, e, minPrec) == ParseLoop(r.ts, pos, e, minPrec, r.nums)) &&
    (forall pos {:trigger ParsePrefix(r.ts, pos, r.nums)} :: r.prefix(pos) == ParsePrefix(r.ts, pos, r.nums)) &&
    (forall pos, close {:trigger ParseItems(r.ts, pos, close, r.nums)} | Closes(close) ::
       r.items(pos, close) == ParseItems(r.ts, pos, close, r.nums)) &&
    (forall pos, close, done {:trigger ParseMoreItems(r.ts, pos, close, done, r.nums)} | Closes(close) ::
       r.more(pos, close, done) == ParseMoreItems(r.ts, pos, close, done, r.nums)) &&
    (forall pos, done {:trigger ParseEntries(r.ts, pos, done, r.nums)} ::
       r.entries(pos, done) == ParseEntries(r.ts, pos, done, r.nums))
  }

  predicate Closes(t: Token) { t == RParen || t == RBracket }

  // The loop leaves alone what may follow.
  lemma LoopStops(r: Reader, pos: nat, e: Expr, level: nat)
    requires IsReader(r) && pos <= |r.ts| && MayFollow(Peek(r.ts, pos), level)
    ensures r.loop(pos, e, if level == 0 then 0 else level + 1) == Ok((e, pos))
  {
    var _ := ParseLoop(r.ts, pos, e, if level == 0 then 0 else level + 1, r.nums);
  }

  lemma PrefixStep(r: Reader, pos: nat, e: Expr, end: nat, minPrec: nat)
    requires IsReader(r) && end <= |r.ts|
    ensures r.prefix(pos) == Ok((e, end)) ==> r.expr(pos, minPrec) == r.loop(end, e, minPrec)
  {
    assert r.expr(pos, minPrec) == ParseExpr(r.ts, pos, minPrec, r.nums);
    assert r.prefix(pos) == ParsePrefix(r.ts, pos, r.nums);
    assert r.loop(end, e, minPrec) == ParseLoop(r.ts, end, e, minPrec, r.nums);
  }

  lemma Parenthesized(r: Reader, pos: nat, e: Expr, end: nat)
    requires IsReader(r) && Peek(r.ts, pos) == LParen && pos < end && Peek(r.ts, end - 1) == RParen
    ensures r.expr(pos + 1, 0) == Ok((e, end - 1)) ==> r.prefix(pos) == Ok((e, end))
  {
    assert r.expr(pos + 1, 0) == ParseExpr(r.ts, pos + 1, 0, r.nums);
    assert r.prefix(pos) == ParsePrefix(r.ts, pos, r.nums);
  }

  lemma ConditionalStep(r: Reader, c: Expr, t: Expr, f: Expr, p0: nat, p1: nat, p2: nat)
    requires IsReader(r) && p0 <= |r.ts| && p2 <= |r.ts| && Peek(r.ts, p0) == Question && Peek(r.ts, p1) == Colon
    ensures r.expr(p0 + 1, 0) == Ok((t, p1)) && r.expr(p1 + 1, 0) == Ok((f, p2)) ==>
              r.loop(p0, c, 0) == r.loop(p2, ConditionalExpr(c, t, f), 0)
  {
    assert r.expr(p0 + 1, 0) == ParseExpr(r.ts, p0 + 1, 0, r.nums);
    assert r.expr(p1 + 1, 0) == ParseExpr(r.ts, p1 + 1, 0, r.nums);
    assert r.loop(p0, c, 0) == ParseLoop(r.ts, p0, c, 0, r.nums);
    assert r.loop(p2, ConditionalExpr(c, t, f), 0) == ParseLoop(r.ts, p2, ConditionalExpr(c, t, f), 0, r.nums);
  }

  lemma BinaryStep(r: Reader, left: Expr, bop: BinOp, right: Expr, minPrec: nat, p: nat, end: nat)
    requires IsReader(r) && p <= |r.ts| && end <= |r.ts| && Peek(r.ts, p) == Op(Binary(bop)) &&
             minPrec <= Precedence(bop)
    ensures r.expr(p + 1, Precedence(bop) + 1) == Ok((right, end)) ==>
              r.loop(p, left, minPrec) == r.loop(end, BinaryExpr(Binary(bop), left, right), minPrec)
  {
    var e := BinaryExpr(Binary(bop), left, right);
    assert r.expr(p + 1, Precedence(bop) + 1) == ParseExpr(r.ts, p + 1, Precedence(bop) + 1, r.nums);
    assert r.loop(p, left, minPrec) == ParseLoop(r.ts, p, left, minPrec, r.nums);
    assert r.loop(end, e, minPrec) == ParseLoop(r.ts, end, e, minPrec, r.nums);
  }

  lemma CallPrefix(r: Reader, name: string, args: seq<Expr>, pos: nat, end: nat)
    requires IsReader(r) && Peek(r.ts, pos) == Ident(name) && Peek(r.ts, pos + 1) == LParen
    ensures r.items(pos + 2, RParen) == Ok((args, end)) ==> r.prefix(pos) == Ok((FunctionCallExpr(name, args), end))
  {
    assert r.items(pos + 2, RParen) == ParseItems(r.ts, pos + 2, RParen, r.nums);
    assert r.prefix(pos) == ParsePrefix(r.ts, pos, r.nums);
  }

  lemma ListPrefix(r: Reader, es: seq<Expr>, pos: nat, end: nat)
    requires IsReader(r) && Peek(r.ts, pos) == LBracket
    ensures r.items(pos + 1, RBracket) == Ok((es, end)) ==> r.prefix(pos) == Ok((ListExpr(es), end))
  {
    assert r.items(pos + 1, RBracket) == ParseItems(r.ts, pos + 1, RBracket, r.nums);
    assert r.prefix(pos) == ParsePrefix(r.ts, pos, r.nums);
  }

  lemma MapPrefix(r: Reader, es: seq<MapEntry>, pos: nat, end: nat)
    requires IsReader(r) && Peek(r.ts, pos) == LBrace
    ensures Peek(r.ts, pos + 1) == RBrace ==> r.prefix(pos) == Ok((MapExpr([]), pos + 2))
    ensures Peek(r.ts, pos + 1) != RBrace && r.entries(pos + 1, []) == Ok((es, end)) ==>
              r.prefix(pos) == Ok((MapExpr(es), end))
  {
    assert r.entries(pos + 1, []) == ParseEntries(r.ts, pos + 1, [], r.nums);
    assert r.prefix(pos) == ParsePrefix(r.ts, pos, r.nums);
  }

  lemma UnaryPrefix(r: Reader, op: Operator, x: Expr, pos: nat, end: nat)
    requires IsReader(r) && Peek(r.ts, pos) == Op(op) && UnaryOperator(op).Some?
    ensures r.expr(pos + 1, UNARY_LEVEL) == Ok((x, end)) ==> r.prefix(pos) == Ok((UnaryExpr(op, x), end))
  {
    assert r.expr(pos + 1, UNARY_LEVEL) == ParseExpr(r.ts, pos + 1, UNARY_LEVEL, r.nums);
    assert r.prefix(pos) == ParsePrefix(r.ts, pos, r.nums);
  }

  lemma MoreStep(r: Reader, e: Expr, close: Token, done: seq<Expr>, pos: nat, p: nat)
    requires IsReader(r) && Closes(close) && (Peek(r.ts, p) == Comma || Peek(r.ts, p) == close)
    ensures r.expr(pos, 0) == Ok((e, p)) ==>
              r.more(pos, close, done) ==
              if Peek(r.ts, p) == Comma then r.more(p + 1, close, done + [e]) else Ok((done + [e], p + 1))
  {
    assert r.expr(pos, 0) == ParseExpr(r.ts, pos, 0, r.nums);
    assert r.more(pos, close, done) == ParseMoreItems(r.ts, pos, close, done, r.nums);
    assert r.more(p + 1, close, done + [e]) == ParseMoreItems(r.ts, p + 1, close, done + [e], r.nums);
  }

  // No expression starts with a closing token.
  lemma ItemsStart(r: Reader, pos: nat, close: Token)
    requires IsReader(r) && Closes(close)
    ensures Peek(r.ts, pos) == close ==> r.items(pos, close) == Ok(([], pos + 1))
    ensures r.more(pos, close, []).Ok? ==> r.items(pos, close) == r.more(pos, close, [])
  {
    assert r.items(pos, close) == ParseItems(r.ts, pos, close, r.nums);
    assert r.more(pos, close, []) == ParseMoreItems(r.ts, pos, close, [], r.nums);
    if Peek(r.ts, pos) == close {
      assert ParsePrefix(r.ts, pos, r.nums).Err?;
      assert ParseExpr(r.ts, pos, 0, r.nums).Err?;
    }
  }

  lemma EntryStep(r: Reader, e: MapEntry, done: seq<MapEntry>, pos: nat, p: nat)
    requires IsReader(r) && Peek(r.ts, pos) == StringTok(e.key) && Peek(r.ts, pos + 1) == Colon
    requires Peek(r.ts, p) == Comma || Peek(r.ts, p) == RBrace
    ensures r.expr(pos + 2, 0) == Ok((e.value, p)) ==>
              r.entries(pos, done) ==
              if Peek(r.ts, p) == Comma then r.entries(p + 1, done + [e]) else Ok((done + [e], p + 1))
  {
    assert r.expr(pos + 2, 0) == ParseExpr(r.ts, pos + 2, 0, r.nums);
    assert r.entries(pos, done) == ParseEntries(r.ts, pos, done, r.nums);
    assert r.entries(p + 1, done + [e]) == ParseEntries(r.ts, p + 1, done + [e], r.nums);
  }

  lemma LiteralPrefix(r: Reader, v: Value, t: ValueType, pos: nat)
    requires IsReader(r) && ParsableLiteral(v, t, r.nums) && pos < |r.ts| && r.ts[pos] == PrintLiteral(v, r.nums)
    ensures r.prefix(pos) == Ok((LiteralExpr(v, t), pos + 1))
  {
    assert r.prefix(pos) == ParsePrefix(r.ts, pos, r.nums);
    if v.Int? || v.Long? {
      var n := if v.Int? then v.i else v.l;
      DigitsParse(n);
      assert forall i | 0 <= i < |Digits(n)| :: IsDigit(Digits(n)[i]);
    }
  }

  lemma RefPrefix(r: Reader, ref: FactorRef, pos: nat)
    requires IsReader(r) && ParsableRef(ref) && pos < |r.ts| && r.ts[pos] == Ident(Join([ref.code] + ref.path))
    requires !Peek(r.ts, pos + 1).LParen?
    ensures r.prefix(pos) == Ok((FactorRefExpr(ref), pos + 1))
  {
    assert r.prefix(pos) == ParsePrefix(r.ts, pos, r.nums);
    RefParses(ref);
  }

  // The core of the round trip: where a tree lies printed at some level, the parser, asked for any looser
  // level, reads exactly that tree and goes on with what follows.
  lemma {:induction false} ParseLaid(r: Reader, e: Expr, level: nat, minPrec: nat, pos: nat, end: nat)
    requires IsReader(r) && minPrec <= level <= UNARY_LEVEL && Parsable(e, r.nums) &&
             Laid(e, level, r.ts, pos, end, r.nums)
    requires MayFollow(Peek(r.ts, end), level)
    ensures r.expr(pos, minPrec) == r.loop(end, e, minPrec)
    decreases e, 4
  {
    if Level(e) < level {
      ParseParenthesized(r, e, minPrec, pos, end);
    } else {
      ParseBare(r, e, level, minPrec, pos, end);
    }
  }

  lemma {:induction false} ReadAfter(r: Reader, t: Token, e: Expr, level: nat, stop: nat, pos: nat, end: nat)
    requires IsReader(r) && level <= UNARY_LEVEL && Parsable(e, r.nums) &&
             LaidAfter(t, e, level, r.ts, pos, end, r.nums)
    requires MayFollow(Peek(r.ts, end), stop) && level == if stop == 0 then 0 else stop + 1
    ensures Peek(r.ts, pos) == t && r.expr(pos + 1, level) == Ok((e, end))
    decreases e, 6
  {
    ReadLaid(r, e, level, stop, pos + 1, end);
  }

  lemma {:induction false} ParseParenthesized(r: Reader, e: Expr, minPrec: nat, pos: nat, end: nat)
    requires IsReader(r) && Parsable(e, r.nums) && Peek(r.ts, pos) == LParen && pos < end <= |r.ts|
    requires LaidBare(e, r.ts, pos + 1, end - 1, r.nums) && Peek(r.ts, end - 1) == RParen
    ensures r.expr(pos, minPrec) == r.loop(end, e, minPrec)
    decreases e, 3
  {
    ReadBare(r, e, pos + 1, end - 1);
    Parenthesized(r, pos, e, end);
    PrefixStep(r, pos, e, end, minPrec);
  }

  lemma {:induction false} ReadBare(r: Reader, e: Expr, pos: nat, end: nat)
    requires IsReader(r) && Parsable(e, r.nums) && LaidBare(e, r.ts, pos, end, r.nums) && MayFollow(Peek(r.ts, end), 0)
    ensures r.expr(pos, 0) == Ok((e, end))
    decreases e, 2
  {
    ParseBare(r, e, 0, 0, pos, end);
    LoopStops(r, end, e, 0);
  }

  // A tree followed by what stops the parser is read whole.
  lemma {:induction false} ReadLaid(r: Reader, e: Expr, level: nat, stop: nat, pos: nat, end: nat)
    requires IsReader(r) && level <= UNARY_LEVEL && Parsable(e, r.nums) && Laid(e, level, r.ts, pos, end, r.nums)
    requires MayFollow(Peek(r.ts, end), stop) && level == if stop == 0 then 0 else stop + 1
    ensures r.expr(pos, level) == Ok((e, end))
    decreases e, 5
  {
    ParseLaid(r, e, level, level, pos, end);
    LoopStops(r, end, e, stop);
  }

  lemma {:induction false} ParseBare(r: Reader, e: Expr, level: nat, minPrec: nat, pos: nat, end: nat)
    requires IsReader(r) && minPrec <= level <= Level(e) && level <= UNARY_LEVEL && Parsable(e, r.nums)
    requires LaidBare(e, r.ts, pos, end, r.nums) && MayFollow(Peek(r.ts, end), level)
    ensures r.expr(pos, minPrec) == r.loop(end, e, minPrec)
    decreases e, 1
  {
    match e
    case ConditionalExpr(_, _, _) => ParseConditional(r, e, pos, end);
    case BinaryExpr(_, _, _) => ParseBinary(r, e, level, minPrec, pos, end);
    case _ =>
      ParseAtom(r, e, pos, end);
      PrefixStep(r, pos, e, end, minPrec);
  }

  // Conditionals nest to the right.
  lemma {:induction false} ParseConditional(r: Reader, e: Expr, pos: nat, end: nat)
    requires IsReader(r) && e.ConditionalExpr? && Parsable(e, r.nums)
    requires LaidBare(e, r.ts, pos, end, r.nums) && MayFollow(Peek(r.ts, end), 0)
    ensures r.expr(pos, 0) == r.loop(end, e, 0)
    decreases e, 0
  {
    var p: nat, q: nat :|
      Laid(e.cond, 1, r.ts, pos, p, r.nums) && LaidAfter(Question, e.thn, 0, r.ts, p, q, r.nums) &&
      LaidAfter(Colon, e.els, 0, r.ts, q, end, r.nums);
    ReadAfter(r, Colon, e.els, 0, 0, q, end);
    ReadAfter(r, Question, e.thn, 0, 0, p, q);
    ParseLaid(r, e.cond, 1, 0, pos, p);
    ConditionalStep(r, e.cond, e.thn, e.els, p, q, end);
  }

  // Binary operators nest to the left.
  lemma {:induction false} ParseBinary(r: Reader, e: Expr, level: nat, minPrec: nat, pos: nat, end: nat)
    requires IsReader(r) && e.BinaryExpr? && minPrec <= level <= Level(e) && Parsable(e, r.nums)
    requires LaidBare(e, r.ts, pos, end, r.nums) && MayFollow(Peek(r.ts, end), level)
    ensures r.expr(pos, minPrec) == r.loop(end, e, minPrec)
    decreases e, 0
  {
    var q := Precedence(e.op.op);
    var p: nat :| Laid(e.left, q, r.ts, pos, p, r.nums) && LaidAfter(Op(e.op), e.right, q + 1, r.ts, p, end, r.nums);
    ReadAfter(r, Op(e.op), e.right, q + 1, q, p, end);
    ParseLaid(r, e.left, q, minPrec, pos, p);
    BinaryStep(r, e.left, e.op.op, e.right, minPrec, p, end);
  }

  // What is neither a conditional nor a binary operation is one prefix, whatever follows it.
  lemma {:induction false} ParseAtom(r: Reader, e: Expr, pos: nat, end: nat)
    requires IsReader(r) && Level(e) >= UNARY_LEVEL && Parsable(e, r.nums)
    requires LaidBare(e, r.ts, pos, end, r.nums) && !Peek(r.ts, end).LParen?
    ensures r.prefix(pos) == Ok((e, end))
    decreases e, 0
  {
    match e
    case LiteralExpr(v, t) => LiteralPrefix(r, v, t, pos);
    case FactorRefExpr(ref) => RefPrefix(r, ref, pos);
    case FunctionCallExpr(name, args) =>
      ReadItems(r, args, RParen, pos + 2, end - 1);
      CallPrefix(r, name, args, pos, end);
    case ListExpr(es) =>
      ReadItems(r, es, RBracket, pos + 1, end - 1);
      ListPrefix(r, es, pos, end);
    case MapExpr(es) =>
      assert [] + es == es;
      if es != [] { ReadEntries(r, es, [], pos + 1, end - 1); }
      MapPrefix(r, es, pos, end);
    case UnaryExpr(op, x) =>
      ReadLaid(r, x, UNARY_LEVEL, UNARY_LEVEL - 1, pos + 1, end);
      UnaryPrefix(r, op, x, pos, end);
  }

  lemma {:induction false} ReadItems(r: Reader, es: seq<Expr>, close: Token, pos: nat, end: nat)
    requires IsReader(r) && Closes(close) && ParsableAll(es, r.nums)
    requires LaidItems(es, r.ts, pos, end, r.nums) && Peek(r.ts, end) == close
    ensures r.items(pos, close) == Ok((es, end + 1))
    decreases es, 1
  {
    assert [] + es == es;
    if es != [] { ReadMore(r, es, close, [], pos, end); }
    ItemsStart(r, pos, close);
  }

  lemma {:induction false} ReadOne(r: Reader, e: Expr, close: Token, done: seq<Expr>, pos: nat, p: nat)
    requires IsReader(r) && Closes(close) && Parsable(e, r.nums) && LaidItem(e, r.ts, pos, p, r.nums)
    requires Peek(r.ts, p) == Comma || Peek(r.ts, p) == close
    ensures r.more(pos, close, done) ==
            if Peek(r.ts, p) == Comma then r.more(p + 1, close, done + [e]) else Ok((done + [e], p + 1))
    decreases e, 6
  {
    ReadLaid(r, e, 0, 0, pos, p);
    MoreStep(r, e, close, done, pos, p);
  }

  lemma {:induction false} ReadMore(r: Reader, es: seq<Expr>, close: Token, done: seq<Expr>, pos: nat, end: nat)
    requires IsReader(r) && Closes(close) && es != [] && ParsableAll(es, r.nums)
    requires LaidItems(es, r.ts, pos, end, r.nums) && Peek(r.ts, end) == close
    ensures r.more(pos, close, done) == Ok((done + es, end + 1))
    decreases es, 0
  {
    if |es| > 1 {
      var p: nat :| LaidItem(es[0], r.ts, pos, p, r.nums) && Peek(r.ts, p) == Comma &&
        LaidItems(es[1..], r.ts, p + 1, end, r.nums);
      ReadOne(r, es[0], close, done, pos, p);
      assert ParsableAll(es[1..], r.nums) && es[1..] != [];
      ReadMore(r, es[1..], close, done + [es[0]], p + 1, end);
      assert done + [es[0]] + es[1..] == done + es;
    } else {
      assert done + [es[0]] == done + es;
      ReadOne(r, es[0], close, done, pos, end);
    }
  }

  lemma {:induction false} ReadEntries(r: Reader, es: seq<MapEntry>, done: seq<MapEntry>, pos: nat, end: nat)
    requires IsReader(r) && es != [] && ParsableEntries(es, r.nums)
    requires LaidEntries(es, r.ts, pos, end, r.nums) && Peek(r.ts, end) == RBrace
    ensures r.entries(pos, done) == Ok((done + es, end + 1)) && Peek(r.ts, pos).StringTok?
    decreases es, 0
  {
    if |es| > 1 {
      assert done + [es[0]] + es[1..] == done + es;
      var p: nat :| LaidEntry(es[0], r.ts, pos, p, r.nums) && Peek(r.ts, p) == Comma &&
        LaidEntries(es[1..], r.ts, p + 1, end, r.nums);
      ReadLaid(r, es[0].value, 0, 0, pos + 2, p);
      ReadEntries(r, es[1..], done + [es[0]], p + 1, end);
      EntryStep(r, es[0], done, pos, p);
    } else {
      assert done + [es[0]] == done + es;
      ReadLaid(r, es[0].value, 0, 0, pos + 2, end);
      EntryStep(r, es[0], done, pos, end);
    }
  }

  function ReaderOf(ts: seq<Token>, nums: NumberSyntax): (r: Reader)
    ensures r.ts == ts && r.nums == nums && IsReader(r)
  {
    Reader(ts, nums,
      (pos: nat, minPrec: nat) => ParseExpr(ts, pos, minPrec, nums),
      (pos: nat, e: Expr, minPrec: nat) =>
        if pos <= |ts| then ParseLoop(ts, pos, e, minPrec, nums) else Err(ExpressionInvalid),
      (pos: nat) => ParsePrefix(ts, pos, nums),
      (pos: nat, close: Token) => if Closes(close) then ParseItems(ts, pos, close, nums) else Err(ExpressionInvalid),
      (pos: nat, close: Token, done: seq<Expr>) =>
        if Closes(close) then ParseMoreItems(ts, pos, close, done, nums) else Err(ExpressionInvalid),
      (pos: nat, done: seq<MapEntry>) => ParseEntries(ts, pos, done, nums))
  }

  lemma ParsesWhole(r: Reader, e: Expr, end: nat)
    requires IsReader(r) && Peek(r.ts, end).End?
    ensures r.expr(0, 0) == Ok((e, end)) ==> ParseTokens(r.ts, r.nums) == Ok(e)
  {
    assert r.expr(0, 0) == ParseExpr(r.ts, 0, 0, r.nums);
  }

  // Parsing inverts printing, whether the tokens just stop or an end token follows.
  lemma ParserInvertsPrinter(e: Expr, tail: seq<Token>, nums: NumberSyntax)
    requires Parsable(e, nums) && (tail == [] || tail[0].End?)
    ensures ParseTokens(Print(e, 0, nums) + tail, nums) == Ok(e)
  {
    var ts := Print(e, 0, nums) + tail;
    var end := |Print(e, 0, nums)|;
    var r := ReaderOf(ts, nums);
    PrintedIsLaid(e, 0, ts, 0, nums);
    ReadLaid(r, e, 0, 0, 0, end);
    ParsesWhole(r, e, end);
  }
}
