// Splitting text into tokens. A character stands for a byte of the source text, which the classification
// of letters, digits and white space looks at one by one, as Latin-1.
module Tokenizer {
  import opened Values
  import opened Operators
  import opened Ast
  import opened Parser
  import opened Texts

  predicate IsSpace(c: char) {
    c == ' ' || 9 <= c as int <= 13 || c as int == 0x85 || c as int == 0xA0
  }

  predicate IsLetter(c: char) {
    'a' <= c <= 'z' || 'A' <= c <= 'Z' || c as int in {0xAA, 0xB5, 0xBA} ||
    (0xC0 <= c as int <= 0xFF && c as int != 0xD7 && c as int != 0xF7)
  }

  predicate IdentStart(c: char) { c == '_' || IsLetter(c) }

  predicate IdentPart(c: char) { c == '_' || c == '.' || IsLetter(c) || IsDigit(c) }

  // The end of the run of characters of a class that starts at i.
  function Span(s: string, i: nat, p: char -> bool): (j: nat)
    requires i <= |s|
    ensures i <= j <= |s| && (j < |s| ==> !p(s[j]))
    ensures forall k | i <= k < j :: p(s[k])
    decreases |s| - i
  {
    if i < |s| && p(s[i]) then Span(s, i + 1, p) else i
  }

  lemma {:induction false} SpanUnique(s: string, i: nat, p: char -> bool, j: nat)
    requires i <= j <= |s| && (forall k | i <= k < j :: p(s[k])) && (j < |s| ==> !p(s[j]))
    ensures Span(s, i, p) == j
    decreases j - i
  {
    if i < j { SpanUnique(s, i + 1, p, j); }
  }

  function NumberEnd(s: string, i: nat): (j: nat)
    requires i <= |s|
    ensures i <= j <= |s|
  {
    var j := Span(s, i, IsDigit);
    if j < |s| && s[j] == '.' then Span(s, j + 1, IsDigit) else j
  }

  function Word(w: string): Token {
    if w == "true" || w == "false" then BoolTok(w == "true")
    else if w == "null" then NullTok
    else Ident(w)
  }

  function Punctuation(c: char): Option<Token> {
    match c
    case '(' => Some(LParen)
    case ')' => Some(RParen)
    case '[' => Some(LBracket)
    case ']' => Some(RBracket)
    case '{' => Some(LBrace)
    case '}' => Some(RBrace)
    case ',' => Some(Comma)
    case ':' => Some(Colon)
    case '?' => Some(Question)
    case _ => None
  }

  function LongOperator(s: string): Option<Operator> {
    match s
    case "&&" => Some(Binary(And))
    case "||" => Some(Binary(Or))
    case "==" => Some(Binary(Strict(Eq)))
    case "!=" => Some(Binary(Strict(Ne)))
    case "<=" => Some(Binary(Strict(Le)))
    case ">=" => Some(Binary(Strict(Ge)))
    case _ => None
  }

  function ShortOperator(c: char): Option<Operator> {
    match c
    case '<' => Some(Binary(Strict(Lt)))
    case '>' => Some(Binary(Strict(Gt)))
    case '+' => Some(Binary(Strict(Add)))
    case '-' => Some(Binary(Strict(Sub)))
    case '*' => Some(Binary(Strict(Mul)))
    case '/' => Some(Binary(Strict(Div)))
    case '!' => Some(Bang)
    case _ => None
  }

  function OperatorAt(s: string, i: nat): Option<(Operator, nat)>
    requires i < |s|
  {
    if i + 1 < |s| && LongOperator(s[i..i + 2]).Some? then Some((LongOperator(s[i..i + 2]).value, i + 2))
    else if ShortOperator(s[i]).Some? then Some((ShortOperator(s[i]).value, i + 1))
    else None
  }

  // The token that starts at i, and where it ends.
  function TokenAt(s: string, i: nat): (r: Result<(Token, nat)>)
    requires i < |s|
    ensures r.Ok? ==> i < r.value.1 <= |s|
  {
    var c := s[i];
    if IdentStart(c) then
      var j := Span(s, i + 1, IdentPart);
      Ok((Word(s[i..j]), j))
    else if IsDigit(c) then
      var j := NumberEnd(s, i + 1);
      Ok((Number(s[i..j]), j))
    else if c == '"' || c == '\'' then
      var j := Span(s, i + 1, x => x != c);
      if j >= |s| then Err(ExpressionInvalid) else Ok((StringTok(s[i + 1..j]), j + 1))
    else if Punctuation(c).Some? then Ok((Punctuation(c).value, i + 1))
    else
      match OperatorAt(s, i)
      case Some((op, j)) => Ok((Op(op), j))
      case None => Err(ExpressionInvalid)
  }

  function TokensFrom(s: string, i: nat): Result<seq<Token>>
    requires i <= |s|
    decreases |s| - i
  {
    if i == |s| then Ok([End])
    else if IsSpace(s[i]) then TokensFrom(s, i + 1)
    else
      var (t, j) :- TokenAt(s, i);
      var rest :- TokensFrom(s, j);
      Ok([t] + rest)
  }

  function Tokenize(s: string): Result<seq<Token>> {
    TokensFrom(s, 0)
  }

  ghost predicate Continued(whole: Result<seq<Token>>, done: seq<Token>, rest: Result<seq<Token>>) {
    whole == if rest.Ok? then Ok(done + rest.value) else rest
  }

  lemma ContinuedStep(whole: Result<seq<Token>>, done: seq<Token>, t: Token, rest: Result<seq<Token>>)
    requires Continued(whole, done, if rest.Ok? then Ok([t] + rest.value) else rest)
    ensures Continued(whole, done + [t], rest)
  {
    if rest.Ok? { assert done + ([t] + rest.value) == done + [t] + rest.value; }
  }

  // The scan over the text as the source has it.
  method TokenizeExpression(s: string) returns (r: Result<seq<Token>>)
    ensures r == Tokenize(s)
  {
    var tokens: seq<Token> := [];
    var i := 0;
    if Tokenize(s).Ok? { assert tokens + Tokenize(s).value == Tokenize(s).value; }
    while i < |s|
      invariant i <= |s| && Continued(Tokenize(s), tokens, TokensFrom(s, i))
      decreases |s| - i
    {
      var c := s[i];
      if IsSpace(c) {
        i := i + 1;
        continue;
      }
      var t, j := ScanToken(s, i);
      if t.Err? { return Err(t.code); }
      ContinuedStep(Tokenize(s), tokens, t.value, TokensFrom(s, j));
      tokens := tokens + [t.value];
      i := j;
    }
    return Ok(tokens + [End]);
  }

  method ScanWhile(s: string, i: nat, p: char -> bool) returns (j: nat)
    requires i <= |s|
    ensures j == Span(s, i, p)
  {
    j := i;
    while j < |s| && p(s[j])
      invariant i <= j <= |s| && Span(s, i, p) == Span(s, j, p)
    {
      j := j + 1;
    }
  }

  method ScanToken(s: string, i: nat) returns (t: Result<Token>, j: nat)
    requires i < |s| && !IsSpace(s[i])
    ensures match TokenAt(s, i)
            case Ok((x, e)) => t == Ok(x) && j == e
            case Err(c) => t == Err(c)
  {
    var c := s[i];
    j := i + 1;
    if IdentStart(c) {
      j := ScanWhile(s, j, IdentPart);
      return Ok(Word(s[i..j])), j;
    }
    if IsDigit(c) {
      j := ScanWhile(s, j, IsDigit);
      if j < |s| && s[j] == '.' { j := ScanWhile(s, j + 1, IsDigit); }
      return Ok(Number(s[i..j])), j;
    }
    if c == '"' || c == '\'' {
      j := ScanWhile(s, j, x => x != c);
      if j >= |s| { return Err(ExpressionInvalid), j; }
      return Ok(StringTok(s[i + 1..j])), j + 1;
    }
    if Punctuation(c).Some? { return Ok(Punctuation(c).value), j; }
    var op := OperatorAt(s, i);
    if op.None? { return Err(ExpressionInvalid), j; }
    return Ok(Op(op.value.0)), op.value.1;
  }

  // Writing tokens as text

  function OperatorText(op: Operator): string {
    match op
    case Bang => "!"
    case Binary(And) => "&&"
    case Binary(Or) => "||"
    case Binary(Strict(Eq)) => "=="
    case Binary(Strict(Ne)) => "!="
    case Binary(Strict(Lt)) => "<"
    case Binary(Strict(Le)) => "<="
    case Binary(Strict(Gt)) => ">"
    case Binary(Strict(Ge)) => ">="
    case Binary(Strict(Add)) => "+"
    case Binary(Strict(Sub)) => "-"
    case Binary(Strict(Mul)) => "*"
    case Binary(Strict(Div)) => "/"
  }

  function Quote(s: string): string {
    if '"' in s then "'" else "\""
  }

  function Text(t: Token): string {
    match t
    case Ident(raw) => raw
    case Number(raw) => raw
    case StringTok(raw) => Quote(raw) + raw + Quote(raw)
    case BoolTok(b) => if b then "true" else "false"
    case NullTok => "null"
    case LParen => "("
    case RParen => ")"
    case LBracket => "["
    case RBracket => "]"
    case LBrace => "{"
    case RBrace => "}"
    case Comma => ","
    case Colon => ":"
    case Question => "?"
    case Op(op) => OperatorText(op)
    case End => ""
  }

  predicate IsName(w: string) {
    w != "" && IdentStart(w[0]) && (forall k | 0 <= k < |w| :: IdentPart(w[k])) && Word(w) == Ident(w)
  }

  predicate AllDigitsIn(s: string, i: nat, j: nat)
    requires i <= j <= |s|
  {
    forall k | i <= k < j :: IsDigit(s[k])
  }

  // Digits, and perhaps a point and more digits.
  predicate IsNumeral(w: string) {
    w != "" && IsDigit(w[0]) &&
    exists k {:trigger AllDigitsIn(w, 0, k)} ::
      0 < k <= |w| && AllDigitsIn(w, 0, k) && (k == |w| || (w[k] == '.' && AllDigitsIn(w, k + 1, |w|)))
  }

  // Tokens that can be written: names that are no keywords, numbers, and strings without one of the quotes.
  predicate Writable(t: Token) {
    match t
    case Ident(raw) => IsName(raw)
    case Number(raw) => IsNumeral(raw)
    case StringTok(raw) => '"' !in raw || '\'' !in raw
    case End => false
    case _ => true
  }

  function Render(ts: seq<Token>): string {
    if ts == [] then "" else Text(ts[0]) + " " + Render(ts[1..])
  }

  // Tokens that end by themselves.
  predicate SelfEnding(t: Token) {
    t.StringTok? || t in {LParen, RParen, LBracket, RBracket, LBrace, RBrace, Comma, Colon, Question}
  }

  // A character that cannot become part of the token in front of it.
  predicate Apart(t: Token, c: char) {
    SelfEnding(t) || if t.Op? then c !in {'&', '|', '='} else !IdentPart(c) && !IsDigit(c) && c != '.'
  }

  // A token's text at i, up to the end of the text or to where the token must end.
  ghost predicate Stands(s: string, i: nat, t: Token) {
    var w := Text(t);
    i + |w| <= |s| && s[i..i + |w|] == w && (i + |w| == |s| || Apart(t, s[i + |w|]))
  }

  lemma StandsAt(s: string, i: nat, t: Token)
    requires Stands(s, i, t)
    ensures forall k | i <= k < i + |Text(t)| :: s[k] == Text(t)[k - i]
  {
    var w := Text(t);
    forall k | i <= k < i + |w| ensures s[k] == w[k - i] { assert s[k] == s[i..i + |w|][k - i]; }
  }

  lemma ScansWord(s: string, i: nat, t: Token)
    requires Stands(s, i, t) && !SelfEnding(t) && !t.Op? && Text(t) != ""
    requires IdentStart(Text(t)[0]) && forall k | 0 <= k < |Text(t)| :: IdentPart(Text(t)[k])
    ensures TokenAt(s, i) == Ok((Word(Text(t)), i + |Text(t)|))
  {
    var w := Text(t);
    StandsAt(s, i, t);
    SpanUnique(s, i + 1, IdentPart, i + |w|);
  }

  lemma ScansNumber(s: string, i: nat, w: string)
    requires Stands(s, i, Number(w)) && IsNumeral(w)
    ensures TokenAt(s, i) == Ok((Number(w), i + |w|))
  {
    StandsAt(s, i, Number(w));
    var k: nat :| 0 < k <= |w| && AllDigitsIn(w, 0, k) && (k == |w| || (w[k] == '.' && AllDigitsIn(w, k + 1, |w|)));
    NumeralEnds(s, i, w, k);
    assert s[i] == w[0];
  }

  lemma NumeralEnds(s: string, i: nat, w: string, k: nat)
    requires 0 < k <= |w| && i + |w| <= |s| && forall m | i <= m < i + |w| :: s[m] == w[m - i]
    requires i + |w| < |s| ==> !IsDigit(s[i + |w|]) && s[i + |w|] != '.'
    requires AllDigitsIn(w, 0, k) && (k == |w| || (w[k] == '.' && AllDigitsIn(w, k + 1, |w|)))
    ensures NumberEnd(s, i + 1) == i + |w|
  {
    assert k < |w| ==> s[i + k] == w[k];
    assert AllDigitsIn(w, 1, k);
    SpansDigits(s, i, w, 1, k);
    if k < |w| { SpansDigits(s, i, w, k + 1, |w|); }
  }

  lemma SpansDigits(s: string, i: nat, w: string, j: nat, k: nat)
    requires j <= k <= |w| && i + |w| <= |s| && forall m | i <= m < i + |w| :: s[m] == w[m - i]
    requires AllDigitsIn(w, j, k) && (i + k < |s| ==> !IsDigit(s[i + k]))
    ensures Span(s, i + j, IsDigit) == i + k
  {
    forall m | i + j <= m < i + k ensures IsDigit(s[m]) { assert IsDigit(w[m - i]); }
    SpanUnique(s, i + j, IsDigit, i + k);
  }

  lemma ScansString(s: string, i: nat, raw: string)
    requires Writable(StringTok(raw)) && Stands(s, i, StringTok(raw))
    ensures TokenAt(s, i) == Ok((StringTok(raw), i + |raw| + 2))
  {
    var q := Quote(raw)[0];
    assert q !in raw;
    StandsAt(s, i, StringTok(raw));
    Quoted(raw, q);
    forall k | i + 1 <= k < i + 1 + |raw| ensures s[k] == raw[k - i - 1] {}
    assert s[i] == q && s[i + 1 + |raw|] == q;
    SpanIs(s, i + 1, q, i + 1 + |raw|);
    assert s[i + 1..i + 1 + |raw|] == raw;
  }

  lemma Quoted(raw: string, q: char)
    requires Quote(raw) == [q]
    ensures var w := Text(StringTok(raw));
            |w| == |raw| + 2 && w[0] == q && w[|raw| + 1] == q && forall k | 1 <= k < |raw| + 1 :: w[k] == raw[k - 1]
  {
  }

  lemma {:induction false} SpanIs(s: string, i: nat, q: char, j: nat)
    requires i <= j < |s| && (forall k | i <= k < j :: s[k] != q) && s[j] == q
    ensures Span(s, i, x => x != q) == j
    decreases j - i
  {
    SpanUnique(s, i, x => x != q, j);
  }

  // A written token is read back.
  lemma ScansText(s: string, i: nat, t: Token)
    requires Writable(t) && Stands(s, i, t)
    ensures i < |s| && TokenAt(s, i) == Ok((t, i + |Text(t)|)) && !IsSpace(s[i])
  {
    match t
    case Ident(raw) => ScansName(s, i, raw);
    case Number(raw) =>
      StandsAt(s, i, t);
      ScansNumber(s, i, raw);
    case StringTok(raw) =>
      StandsAt(s, i, t);
      Quoted(raw, Quote(raw)[0]);
      ScansString(s, i, raw);
    case BoolTok(_) => ScansKeyword(s, i, t);
    case NullTok => ScansKeyword(s, i, t);
    case Op(op) => ScansOperator(s, i, op);
    case _ => ScansPunctuation(s, i, t);
  }

  lemma ScansName(s: string, i: nat, w: string)
    requires Stands(s, i, Ident(w)) && IsName(w)
    ensures i < |s| && TokenAt(s, i) == Ok((Ident(w), i + |w|)) && !IsSpace(s[i])
  {
    StandsAt(s, i, Ident(w));
    assert s[i] == w[0];
    ScansWord(s, i, Ident(w));
  }

  lemma ScansKeyword(s: string, i: nat, t: Token)
    requires (t.BoolTok? || t.NullTok?) && Stands(s, i, t)
    ensures i < |s| && TokenAt(s, i) == Ok((t, i + |Text(t)|)) && !IsSpace(s[i])
  {
    StandsAt(s, i, t);
    ScansWord(s, i, t);
  }

  lemma ScansPunctuation(s: string, i: nat, t: Token)
    requires |Text(t)| == 1 && Punctuation(Text(t)[0]) == Some(t) && Stands(s, i, t)
    ensures i < |s| && TokenAt(s, i) == Ok((t, i + 1)) && !IsSpace(s[i])
  {
    StandsAt(s, i, t);
  }

  lemma ScansOperator(s: string, i: nat, op: Operator)
    requires Stands(s, i, Op(op))
    ensures i < |s| && TokenAt(s, i) == Ok((Op(op), i + |OperatorText(op)|)) && !IsSpace(s[i])
  {
    var w := OperatorText(op);
    StandsAt(s, i, Op(op));
    if |w| == 1 {
      if i + 1 < |s| {
        assert s[i..i + 2] == [s[i], s[i + 1]];
        assert forall x | LongOperator(x).Some? :: x[1] in {'&', '|', '='};
      }
    } else {
      assert s[i..i + 2] == w;
    }
  }

  // The tokenizer's function on one text, as a value.
  ghost predicate Scans(scan: nat -> Result<seq<Token>>, s: string) {
    forall k: nat {:trigger TokensFrom(s, k)} | k <= |s| :: scan(k) == TokensFrom(s, k)
  }

  // If the text goes on with a written token that ends there, one step reads the token.
  lemma TokenStep(scan: nat -> Result<seq<Token>>, s: string, i: nat, t: Token, text: string, tokens: seq<Token>)
    requires Scans(scan, s) && i <= |s| && Writable(t) && s[i..] == Text(t) + text
    requires text == "" || Apart(t, text[0])
    ensures i + |Text(t)| <= |s| && s[i + |Text(t)|..] == text
    ensures scan(i + |Text(t)|) == Ok(tokens) ==> scan(i) == Ok([t] + tokens)
  {
    Suffix(s, i, Text(t), text);
    if text != "" { assert s[i + |Text(t)|] == text[0]; }
    TokenRead(scan, s, i, t, tokens);
  }

  lemma TokenRead(scan: nat -> Result<seq<Token>>, s: string, i: nat, t: Token, tokens: seq<Token>)
    requires Scans(scan, s) && Writable(t) && Stands(s, i, t)
    ensures scan(i + |Text(t)|) == Ok(tokens) ==> scan(i) == Ok([t] + tokens)
  {
    ScansText(s, i, t);
    assert scan(i) == TokensFrom(s, i) && scan(i + |Text(t)|) == TokensFrom(s, i + |Text(t)|);
  }

  // Laying out tokens: white space in front of every token and behind the last one.

  const WHITE: set<char> := {' ', '\t', '\n', '\r', 11 as char, 12 as char, 0x85 as char, 0xA0 as char}

  predicate White(gap: string) {
    forall c <- gap :: c in WHITE
  }

  function Layout(ts: seq<Token>, gaps: seq<string>): string
    requires |gaps| == |ts| + 1
    decreases |ts|, 1
  {
    gaps[0] + LayoutBody(ts, gaps)
  }

  function LayoutBody(ts: seq<Token>, gaps: seq<string>): string
    requires |gaps| == |ts| + 1
    decreases |ts|, 0
  {
    if ts == [] then "" else Text(ts[0]) + Layout(ts[1..], gaps[1..])
  }

  lemma LayoutStep(t: Token, rest: seq<Token>, gap: string, gaps: seq<string>)
    requires |gaps| == |rest| + 1
    ensures Layout([t] + rest, [gap] + gaps) == gap + (Text(t) + Layout(rest, gaps))
  {
    assert ([t] + rest)[1..] == rest && ([gap] + gaps)[1..] == gaps;
  }

  lemma LayoutThree(
    a: Token, b: Token, c: Token, rest: seq<Token>, f: string, g: string, h: string, gaps: seq<string>)
    requires |gaps| == |rest| + 1
    ensures Layout([a, b, c] + rest, [f, g, h] + gaps) ==
            f + (Text(a) + (g + (Text(b) + (h + (Text(c) + Layout(rest, gaps))))))
  {
    LayoutStep(c, rest, h, gaps);
    LayoutStep(b, [c] + rest, g, [h] + gaps);
    LayoutStep(a, [b] + ([c] + rest), f, [g] + ([h] + gaps));
    assert [a] + ([b] + ([c] + rest)) == [a, b, c] + rest;
    assert [f] + ([g] + ([h] + gaps)) == [f, g, h] + gaps;
  }

  // Tokens that may stand next to each other: not two words or numbers, and not two operators.
  predicate MayTouch(t: Token, u: Token) {
    SelfEnding(t) || SelfEnding(u) || t.Op? != u.Op?
  }

  // White space in the gaps, and some of it between tokens that may not touch.
  predicate WellSpaced(ts: seq<Token>, gaps: seq<string>)
    requires |gaps| == |ts| + 1
  {
    (forall gap <- gaps :: White(gap)) && forall i | 0 < i < |ts| :: gaps[i] != "" || MayTouch(ts[i - 1], ts[i])
  }

  lemma Suffix(s: string, i: nat, w: string, text: string)
    requires i <= |s| && s[i..] == w + text
    ensures i + |w| <= |s| && s[i..i + |w|] == w && s[i + |w|..] == text
  {
    assert |s[i..]| == |s| - i;
    assert s[i..i + |w|] == s[i..][..|w|];
    assert s[i + |w|..] == s[i..][|w|..];
  }

  lemma SkipsOne(scan: nat -> Result<seq<Token>>, s: string, i: nat)
    requires Scans(scan, s) && i < |s| && s[i] in WHITE
    ensures scan(i) == scan(i + 1)
  {
    assert TokensFrom(s, i) == TokensFrom(s, i + 1);
  }

  lemma {:induction false} SkipsWhite(scan: nat -> Result<seq<Token>>, s: string, i: nat, j: nat)
    requires Scans(scan, s) && i <= j <= |s| && White(s[i..j])
    ensures scan(i) == scan(j)
    decreases j - i
  {
    if i < j {
      assert s[i] in s[i..j] && forall c <- s[i + 1..j] :: c in s[i..j];
      SkipsOne(scan, s, i);
      SkipsWhite(scan, s, i + 1, j);
    }
  }

  lemma WhiteApart(t: Token, c: char)
    requires c in WHITE
    ensures Apart(t, c)
  {
  }

  lemma StartsApart(t: Token, u: Token, rest: string)
    requires MayTouch(t, u) && Writable(u)
    ensures Text(u) != "" && Apart(t, (Text(u) + rest)[0])
  {
    assert (Text(u) + rest)[0] == Text(u)[0];
  }

  lemma WellSpacedTail(ts: seq<Token>, gaps: seq<string>)
    requires |gaps| == |ts| + 1 && ts != [] && WellSpaced(ts, gaps)
    ensures WellSpaced(ts[1..], gaps[1..])
    ensures |ts| > 1 ==> gaps[1] != "" || MayTouch(ts[0], ts[1])
  {
    var rest, more := ts[1..], gaps[1..];
    forall gap <- more ensures White(gap) { assert gap in gaps; }
    forall i | 0 < i < |rest| ensures more[i] != "" || MayTouch(rest[i - 1], rest[i]) {
      assert more[i] == gaps[i + 1] && rest[i - 1] == ts[i + 1 - 1] && rest[i] == ts[i + 1];
    }
    if |ts| > 1 { assert MayTouch(ts[1 - 1], ts[1]) <==> MayTouch(ts[0], ts[1]); }
  }

  lemma WhiteGap(ts: seq<Token>, gaps: seq<string>)
    requires |gaps| == |ts| + 1 && WellSpaced(ts, gaps)
    ensures White(gaps[0])
  {
    assert gaps[0] in gaps;
  }

  // The tail of a layout starts with what cannot become part of the token in front of it.
  lemma TailEnds(ts: seq<Token>, gaps: seq<string>)
    requires |gaps| == |ts| + 1 && ts != [] && WellSpaced(ts, gaps) && forall t | t in ts :: Writable(t)
    ensures var text := Layout(ts[1..], gaps[1..]); text == "" || Apart(ts[0], text[0])
  {
    var rest, more := ts[1..], gaps[1..];
    WellSpacedTail(ts, gaps);
    WhiteGap(rest, more);
    if more[0] != "" {
      assert more[0][0] in more[0] && Layout(rest, more)[0] == more[0][0];
      WhiteApart(ts[0], more[0][0]);
    } else if rest != [] {
      assert rest[0] in ts && rest[0] == ts[1] && more[0] == gaps[1];
      StartsApart(ts[0], rest[0], Layout(rest[1..], more[1..]));
      assert Layout(rest, more) == LayoutBody(rest, more);
    }
  }

  lemma {:induction false} ReadsLayout(scan: nat -> Result<seq<Token>>, s: string, i: nat, ts: seq<Token>,
                                       gaps: seq<string>)
    requires Scans(scan, s) && i <= |s| && |gaps| == |ts| + 1 && s[i..] == Layout(ts, gaps) && WellSpaced(ts, gaps)
    requires forall t | t in ts :: Writable(t)
    ensures scan(i) == Ok(ts + [End])
    decreases |ts|
  {
    if ts == [] {
      WhiteGap(ts, gaps);
      Suffix(s, i, gaps[0], "");
      SkipsWhite(scan, s, i, |s|);
      ScansEnd(scan, s);
      assert ts + [End] == [End];
    } else {
      WhiteGap(ts, gaps);
      TailEnds(ts, gaps);
      ReadsFirst(scan, s, i, ts, gaps);
      WellSpacedTail(ts, gaps);
      ReadsLayout(scan, s, i + |gaps[0]| + |Text(ts[0])|, ts[1..], gaps[1..]);
    }
  }

  lemma ReadsFirst(scan: nat -> Result<seq<Token>>, s: string, i: nat, ts: seq<Token>, gaps: seq<string>)
    requires Scans(scan, s) && i <= |s| && |gaps| == |ts| + 1 && s[i..] == Layout(ts, gaps) && White(gaps[0])
    requires ts != [] && Writable(ts[0])
    requires var text := Layout(ts[1..], gaps[1..]); text == "" || Apart(ts[0], text[0])
    ensures var j := i + |gaps[0]| + |Text(ts[0])|;
            j <= |s| && s[j..] == Layout(ts[1..], gaps[1..]) &&
            (scan(j) == Ok(ts[1..] + [End]) ==> scan(i) == Ok(ts + [End]))
  {
    EndPushed(ts);
    ReadsOne(scan, s, i, gaps[0], ts[0], Layout(ts[1..], gaps[1..]), ts[1..] + [End]);
  }

  lemma EndPushed(ts: seq<Token>)
    requires ts != []
    ensures ts + [End] == [ts[0]] + (ts[1..] + [End])
  {
  }

  lemma ReadsOne(
    scan: nat -> Result<seq<Token>>, s: string, i: nat, gap: string, t: Token, text: string, tokens: seq<Token>)
    requires Scans(scan, s) && i <= |s| && Writable(t) && s[i..] == gap + (Text(t) + text)
    requires White(gap) && (text == "" || Apart(t, text[0]))
    ensures var j := i + |gap| + |Text(t)|;
            j <= |s| && s[j..] == text && (scan(j) == Ok(tokens) ==> scan(i) == Ok([t] + tokens))
  {
    Suffix(s, i, gap, Text(t) + text);
    SkipsWhite(scan, s, i, i + |gap|);
    TokenStep(scan, s, i + |gap|, t, text, tokens);
  }

  lemma ScansEnd(scan: nat -> Result<seq<Token>>, s: string)
    requires Scans(scan, s)
    ensures scan(|s|) == Ok([End])
  {
    assert scan(|s|) == TokensFrom(s, |s|);
  }

  // Whatever white space is between them, the tokens are read back.
  lemma TokenizerInvertsLayout(ts: seq<Token>, gaps: seq<string>)
    requires |gaps| == |ts| + 1 && WellSpaced(ts, gaps) && forall t | t in ts :: Writable(t)
    ensures Tokenize(Layout(ts, gaps)) == Ok(ts + [End])
  {
    var s := Layout(ts, gaps);
    var scan := (k: nat) => if k <= |s| then TokensFrom(s, k) else Err(ExpressionInvalid);
    assert s[0..] == s;
    ReadsLayout(scan, s, 0, ts, gaps);
    assert scan(0) == TokensFrom(s, 0);
  }

  // So it makes no difference what white space is there, and between tokens that may touch, whether there is any.
  lemma WhiteSpaceIgnored(ts: seq<Token>, gaps: seq<string>, others: seq<string>)
    requires |gaps| == |others| == |ts| + 1 && WellSpaced(ts, gaps) && WellSpaced(ts, others)
    requires forall t | t in ts :: Writable(t)
    ensures Tokenize(Layout(ts, gaps)) == Tokenize(Layout(ts, others))
  {
    TokenizerInvertsLayout(ts, gaps);
    TokenizerInvertsLayout(ts, others);
  }

  // Writing with a space behind every token is one such layout.

  function Spaces(n: nat): (gaps: seq<string>)
    ensures |gaps| == n
  {
    seq(n, _ => " ")
  }

  lemma {:induction false} RenderSpaces(ts: seq<Token>)
    ensures " " + Render(ts) == Layout(ts, Spaces(|ts| + 1))
  {
    if ts != [] {
      RenderSpaces(ts[1..]);
      assert Spaces(|ts| + 1)[1..] == Spaces(|ts[1..]| + 1);
      Assoc(Text(ts[0]), " ", Render(ts[1..]));
    } else {
      assert Layout([], Spaces(1)) == " " + "";
    }
  }

  lemma RenderLayout(ts: seq<Token>)
    ensures Render(ts) == Layout(ts, [""] + Spaces(|ts|))
  {
    EmptyGap(ts, [""] + Spaces(|ts|));
    if ts != [] { RenderBody(ts); }
  }

  lemma RenderBody(ts: seq<Token>)
    requires ts != []
    ensures Render(ts) == LayoutBody(ts, [""] + Spaces(|ts|))
  {
    var gaps := [""] + Spaces(|ts|);
    RenderSpaces(ts[1..]);
    assert gaps[1..] == Spaces(|ts[1..]| + 1);
    Assoc(Text(ts[0]), " ", Render(ts[1..]));
  }

  lemma EmptyGap(ts: seq<Token>, gaps: seq<string>)
    requires |gaps| == |ts| + 1 && gaps[0] == ""
    ensures Layout(ts, gaps) == LayoutBody(ts, gaps)
  {
  }

  // Reading inverts writing.
  lemma TokenizerInvertsRender(ts: seq<Token>)
    requires forall t | t in ts :: Writable(t)
    ensures Tokenize(Render(ts)) == Ok(ts + [End])
  {
    var gaps := [""] + Spaces(|ts|);
    RenderLayout(ts);
    forall gap <- gaps ensures White(gap) { assert gap == "" || gap == " "; }
    forall i | 0 < i < |ts| ensures gaps[i] != "" { assert gaps[i] == " "; }
    TokenizerInvertsLayout(ts, gaps);
  }

  // Of the characters of seven bits, names consist of letters, digits, underscores and points.
  lemma NameCharacters(c: char)
    requires c as int < 128
    ensures IdentStart(c) <==> 'a' <= c <= 'z' || 'A' <= c <= 'Z' || c == '_'
    ensures IdentPart(c) <==> IdentStart(c) || '0' <= c <= '9' || c == '.'
    ensures IsSpace(c) <==> c in WHITE
  {
  }

  // Names of the usual characters are names.
  lemma UsualNames(w: string)
    requires w != "" && w !in {"true", "false", "null"}
    requires 'a' <= w[0] <= 'z' || 'A' <= w[0] <= 'Z' || w[0] == '_'
    requires forall c <- w ::
      'a' <= c <= 'z' || 'A' <= c <= 'Z' || '0' <= c <= '9' || c == '_' || c == '.'
    ensures IsName(w)
  {
    forall k | 0 <= k < |w| ensures IdentPart(w[k]) { assert w[k] in w; }
  }

  lemma ReadIsWritable(s: string, i: nat)
    requires i < |s|
    ensures TokenAt(s, i).Ok? ==> Writable(TokenAt(s, i).value.0)
  {
    var c := s[i];
    if IdentStart(c) {
      var j := Span(s, i + 1, IdentPart);
      forall k | 0 <= k < j - i ensures IdentPart(s[i..j][k]) { assert s[i..j][k] == s[i + k]; }
    } else if IsDigit(c) {
      var k := Span(s, i + 1, IsDigit);
      var j := NumberEnd(s, i + 1);
      var w := s[i..j];
      assert AllDigitsIn(w, 0, k - i);
      if k < j { assert w[k - i] == '.' && AllDigitsIn(w, k - i + 1, |w|); }
    } else if c == '"' || c == '\'' {
      var j := Span(s, i + 1, x => x != c);
      assert forall k | i + 1 <= k < j :: s[k] != c;
      assert c !in s[i + 1..j];
    }
  }

  // What the tokenizer produces is writable, up to the end token.
  lemma {:induction false} TokensAreWritable(s: string, i: nat)
    requires i <= |s| && TokensFrom(s, i).Ok?
    ensures var ts := TokensFrom(s, i).value;
            ts != [] && ts[|ts| - 1] == End && forall k | 0 <= k < |ts| - 1 :: Writable(ts[k])
    decreases |s| - i
  {
    if i < |s| {
      if IsSpace(s[i]) {
        TokensAreWritable(s, i + 1);
      } else {
        ReadIsWritable(s, i);
        TokensAreWritable(s, TokenAt(s, i).value.1);
      }
    }
  }

  // The token sequences of texts are exactly the writable ones, closed by the end token.
  lemma TokenizerRange(ts: seq<Token>)
    ensures (exists s :: Tokenize(s) == Ok(ts + [End])) <==> forall t | t in ts :: Writable(t)
  {
    if forall t | t in ts :: Writable(t) {
      TokenizerInvertsRender(ts);
    }
    forall s, t | Tokenize(s) == Ok(ts + [End]) && t in ts ensures Writable(t) {
      TokensAreWritable(s, 0);
      var k :| 0 <= k < |ts| && ts[k] == t;
      assert (ts + [End])[k] == t;
    }
  }
}
