// A text that parses does not parse once anything starting with a colon is written behind it.
module Locality {
  import opened Values
  import opened Ast
  import opened Parser
  import opened Tokenizer
  import opened Printer
  import opened Minimality

  // Two readers of the same n tokens, followed by the end in one and by a colon in the other.
  ghost predicate Beside(g: Reader, h: Reader, n: nat) {
    IsReader(g) && IsReader(h) && g.nums == h.nums && n <= |g.ts| && n <= |h.ts| &&
    (forall i | 0 <= i < n :: g.ts[i] == h.ts[i] && !g.ts[i].End?) && Peek(g.ts, n).End? && Peek(h.ts, n) == Colon
  }

  // What the first reads without error it reads within the common tokens, and the second reads the same.
  ghost predicate Same<T>(a: Parsed<T>, b: Parsed<T>, pos: nat, n: nat) {
    a.Ok? ==> pos <= a.value.1 <= n && b == a
  }

  lemma PeekBeside(g: Reader, h: Reader, n: nat, pos: nat)
    requires Beside(g, h, n) && pos <= n
    ensures if pos < n then Peek(g.ts, pos) == Peek(h.ts, pos) && !Peek(g.ts, pos).End?
            else Peek(g.ts, pos).End? && Peek(h.ts, pos) == Colon
  {
  }

  lemma {:induction false} ExprBeside(g: Reader, h: Reader, n: nat, pos: nat, minPrec: nat)
    requires Beside(g, h, n) && pos <= n
    ensures Same(g.expr(pos, minPrec), h.expr(pos, minPrec), pos, n)
    decreases n - pos, 3
  {
    if g.expr(pos, minPrec).Ok? {
      ExprCases(g, pos, minPrec);
      PrefixBeside(g, h, n, pos);
      var e, p := g.prefix(pos).value.0, g.prefix(pos).value.1;
      LoopBeside(g, h, n, p, e, minPrec);
      PrefixStep(h, pos, e, p, minPrec);
    }
  }

  lemma {:induction false} LoopBeside(g: Reader, h: Reader, n: nat, pos: nat, left: Expr, minPrec: nat)
    requires Beside(g, h, n) && pos <= n
    ensures Same(g.loop(pos, left, minPrec), h.loop(pos, left, minPrec), pos, n)
    decreases n - pos, 1
  {
    PeekBeside(g, h, n, pos);
    if Stops(Peek(g.ts, pos), minPrec) {
      StopCases(g, pos, left, minPrec);
      StopCases(h, pos, left, minPrec);
    } else if g.loop(pos, left, minPrec).Ok? {
      if Peek(g.ts, pos).Question? {
        ConditionalBeside(g, h, n, pos, left);
      } else {
        BinaryBeside(g, h, n, pos, left, minPrec);
      }
    }
  }

  lemma {:induction false} ConditionalBeside(g: Reader, h: Reader, n: nat, pos: nat, left: Expr)
    requires Beside(g, h, n) && pos < n && Peek(g.ts, pos).Question? && g.loop(pos, left, 0).Ok?
    ensures Same(g.loop(pos, left, 0), h.loop(pos, left, 0), pos, n)
    decreases n - pos, 0
  {
    ConditionalCases(g, pos, left);
    var t := g.expr(pos + 1, 0).value;
    ExprBeside(g, h, n, pos + 1, 0);
    PeekBeside(g, h, n, t.1);
    var f := g.expr(t.1 + 1, 0).value;
    ExprBeside(g, h, n, t.1 + 1, 0);
    ConditionalStep(h, left, t.0, f.0, pos, t.1, f.1);
    LoopBeside(g, h, n, f.1, ConditionalExpr(left, t.0, f.0), 0);
  }

  lemma {:induction false} BinaryBeside(g: Reader, h: Reader, n: nat, pos: nat, left: Expr, minPrec: nat)
    requires Beside(g, h, n) && pos < n && Peek(g.ts, pos).Op? && Peek(g.ts, pos).op.Binary?
    requires Precedence(Peek(g.ts, pos).op.op) >= minPrec && g.loop(pos, left, minPrec).Ok?
    ensures Same(g.loop(pos, left, minPrec), h.loop(pos, left, minPrec), pos, n)
    decreases n - pos, 0
  {
    var bop := g.ts[pos].op.op;
    var q := Precedence(bop);
    BinaryCases(g, pos, left, bop, minPrec);
    var r := g.expr(pos + 1, q + 1).value;
    ExprBeside(g, h, n, pos + 1, q + 1);
    BinaryStep(h, left, bop, r.0, minPrec, pos, r.1);
    LoopBeside(g, h, n, r.1, BinaryExpr(Binary(bop), left, r.0), minPrec);
  }

  lemma {:induction false} PrefixBeside(g: Reader, h: Reader, n: nat, pos: nat)
    requires Beside(g, h, n) && pos <= n
    ensures Same(g.prefix(pos), h.prefix(pos), pos + 1, n)
    decreases n - pos, 2
  {
    PeekBeside(g, h, n, pos);
    if pos == n {
      assert g.prefix(pos) == ParsePrefix(g.ts, pos, g.nums);
      return;
    }
    PeekBeside(g, h, n, pos + 1);
    if g.prefix(pos).Err? { return; }
    match Peek(g.ts, pos)
    case Ident(raw) =>
      if Peek(g.ts, pos + 1) == LParen {
        var r := g.items(pos + 2, RParen);
        CallCases(g, pos, raw);
        ItemsBeside(g, h, n, pos + 2, RParen);
        CallPrefix(h, raw, r.value.0, pos, r.value.1);
      } else {
        AtomBeside(g, h, n, pos);
      }
    case Op(op) =>
      var r := g.expr(pos + 1, UNARY_LEVEL);
      UnaryCases(g, pos, op);
      ExprBeside(g, h, n, pos + 1, UNARY_LEVEL);
      UnaryPrefix(h, op, r.value.0, pos, r.value.1);
    case LParen =>
      var r := g.expr(pos + 1, 0);
      ParenthesizedCases(g, pos);
      ExprBeside(g, h, n, pos + 1, 0);
      PeekBeside(g, h, n, r.value.1);
      Parenthesized(h, pos, r.value.0, r.value.1 + 1);
    case LBracket =>
      var r := g.items(pos + 1, RBracket);
      ListCases(g, pos);
      ItemsBeside(g, h, n, pos + 1, RBracket);
      ListPrefix(h, r.value.0, pos, r.value.1);
    case LBrace => MapBeside(g, h, n, pos);
    case _ => AtomBeside(g, h, n, pos);
  }

  lemma {:induction false} MapBeside(g: Reader, h: Reader, n: nat, pos: nat)
    requires Beside(g, h, n) && pos < n && Peek(g.ts, pos) == LBrace && g.prefix(pos).Ok?
    ensures Same(g.prefix(pos), h.prefix(pos), pos + 1, n)
    decreases n - pos, 1
  {
    PeekBeside(g, h, n, pos + 1);
    MapCases(g, pos);
    if Peek(g.ts, pos + 1) == RBrace {
      MapCases(h, pos);
    } else {
      var r := g.entries(pos + 1, []);
      EntriesBeside(g, h, n, pos + 1, []);
      MapPrefix(h, r.value.0, pos, r.value.1);
    }
  }

  // Literals and references are read from their own token.
  lemma AtomBeside(g: Reader, h: Reader, n: nat, pos: nat)
    requires Beside(g, h, n) && pos < n
    requires var t := Peek(g.ts, pos); !t.Op? && !t.LParen? && !t.LBracket? && !t.LBrace?
    requires Peek(g.ts, pos).Ident? ==> Peek(g.ts, pos + 1) != LParen
    ensures Same(g.prefix(pos), h.prefix(pos), pos + 1, n)
  {
    PeekBeside(g, h, n, pos);
    PeekBeside(g, h, n, pos + 1);
    assert g.prefix(pos) == ParsePrefix(g.ts, pos, g.nums);
    assert h.prefix(pos) == ParsePrefix(h.ts, pos, h.nums);
  }

  lemma {:induction false} ItemsBeside(g: Reader, h: Reader, n: nat, pos: nat, close: Token)
    requires Beside(g, h, n) && pos <= n && Closes(close)
    ensures Same(g.items(pos, close), h.items(pos, close), pos + 1, n)
    decreases n - pos, 5
  {
    PeekBeside(g, h, n, pos);
    ItemsCases(g, pos, close);
    ItemsCases(h, pos, close);
    if Peek(g.ts, pos) != close { MoreBeside(g, h, n, pos, close, []); }
  }

  lemma {:induction false} MoreBeside(g: Reader, h: Reader, n: nat, pos: nat, close: Token, done: seq<Expr>)
    requires Beside(g, h, n) && pos <= n && Closes(close)
    ensures Same(g.more(pos, close, done), h.more(pos, close, done), pos + 1, n)
    decreases n - pos, 4
  {
    if g.more(pos, close, done).Ok? {
      MoreCases(g, pos, close, done);
      var e, p := g.expr(pos, 0).value.0, g.expr(pos, 0).value.1;
      ExprBeside(g, h, n, pos, 0);
      PeekBeside(g, h, n, p);
      MoreStep(h, e, close, done, pos, p);
      if Peek(g.ts, p) == Comma { MoreBeside(g, h, n, p + 1, close, done + [e]); }
    }
  }

  lemma {:induction false} EntriesBeside(g: Reader, h: Reader, n: nat, pos: nat, done: seq<MapEntry>)
    requires Beside(g, h, n) && pos <= n
    ensures Same(g.entries(pos, done), h.entries(pos, done), pos + 1, n)
    decreases n - pos, 4
  {
    if g.entries(pos, done).Ok? {
      EntriesCases(g, pos, done);
      PeekBeside(g, h, n, pos);
      PeekBeside(g, h, n, pos + 1);
      var v, p := g.expr(pos + 2, 0).value.0, g.expr(pos + 2, 0).value.1;
      ExprBeside(g, h, n, pos + 2, 0);
      PeekBeside(g, h, n, p);
      var e := MapEntry(g.ts[pos].raw, v);
      EntryStep(h, e, done, pos, p);
      if Peek(g.ts, p) == Comma { EntriesBeside(g, h, n, p + 1, done + [e]); }
    }
  }

  // Tokens

  lemma TokenBeside(s: string, x: string, i: nat)
    requires i < |s| && x != "" && x[0] == ':' && TokenAt(s, i).Ok?
    ensures TokenAt(s + x, i) == TokenAt(s, i)
  {
    var t, c := s + x, s[i];
    assert t[i] == c;
    if IdentStart(c) {
      RunBeside(s, x, i + 1, IdentPart);
      assert t[i..Span(s, i + 1, IdentPart)] == s[i..Span(s, i + 1, IdentPart)];
    } else if IsDigit(c) {
      NumberBeside(s, x, i + 1);
      assert t[i..NumberEnd(s, i + 1)] == s[i..NumberEnd(s, i + 1)];
    } else if c == '"' || c == '\'' {
      StringBeside(s, x, i);
    } else if Punctuation(c).None? {
      OperatorBeside(s, x, i);
    }
  }

  lemma RunBeside(s: string, x: string, i: nat, p: char -> bool)
    requires i <= |s| && x != "" && x[0] == ':' && !p(':')
    ensures Span(s + x, i, p) == Span(s, i, p)
  {
    var t, j := s + x, Span(s, i, p);
    forall k | i <= k < j ensures p(t[k]) { assert t[k] == s[k]; }
    assert j < |s| ==> t[j] == s[j];
    assert t[|s|] == ':';
    SpanUnique(t, i, p, j);
  }

  lemma StringBeside(s: string, x: string, i: nat)
    requires i < |s| && (s[i] == '"' || s[i] == '\'') && TokenAt(s, i).Ok?
    ensures TokenAt(s + x, i) == TokenAt(s, i)
  {
    var t, c := s + x, s[i];
    var j := Span(s, i + 1, x => x != c);
    forall k | i + 1 <= k < j ensures t[k] != c { assert t[k] == s[k]; }
    assert t[i] == c && t[j] == s[j];
    SpanIs(t, i + 1, c, j);
    assert t[i + 1..j] == s[i + 1..j];
  }

  lemma NumberBeside(s: string, x: string, i: nat)
    requires i <= |s| && x != "" && x[0] == ':'
    ensures NumberEnd(s + x, i) == NumberEnd(s, i)
  {
    var j := Span(s, i, IsDigit);
    RunBeside(s, x, i, IsDigit);
    if j < |s| && s[j] == '.' { RunBeside(s, x, j + 1, IsDigit); }
  }

  lemma OperatorBeside(s: string, x: string, i: nat)
    requires i < |s| && x != "" && x[0] == ':'
    ensures OperatorAt(s + x, i) == OperatorAt(s, i)
  {
    var t := s + x;
    assert t[i] == s[i];
    if i + 1 < |s| {
      assert t[i..i + 2] == s[i..i + 2];
    } else {
      assert t[i..i + 2] == [s[i], ':'];
      assert forall w | LongOperator(w).Some? :: w[1] != ':';
    }
  }

  lemma ScanStep(scan: nat -> Result<seq<Token>>, s: string, i: nat)
    requires Scans(scan, s) && i < |s|
    ensures IsSpace(s[i]) ==> scan(i) == scan(i + 1)
    ensures !IsSpace(s[i]) && TokenAt(s, i).Err? ==> scan(i).Err?
    ensures !IsSpace(s[i]) && TokenAt(s, i).Ok? ==>
              var t, rest := TokenAt(s, i).value.0, scan(TokenAt(s, i).value.1);
              scan(i) == if rest.Ok? then Ok([t] + rest.value) else rest
  {
    assert scan(i) == TokensFrom(s, i);
    if IsSpace(s[i]) {
      assert scan(i + 1) == TokensFrom(s, i + 1);
    } else if TokenAt(s, i).Ok? {
      var j := TokenAt(s, i).value.1;
      assert scan(j) == TokensFrom(s, j);
    }
  }

  // The tokens up to the end, then what the rest of the longer text gives.
  ghost predicate GoesOn(whole: Result<seq<Token>>, done: seq<Token>, rest: Result<seq<Token>>) {
    done != [] && whole == if rest.Ok? then Ok(done[..|done| - 1] + rest.value) else rest
  }

  lemma GoesOnStep(whole: Result<seq<Token>>, t: Token, more: seq<Token>, rest: Result<seq<Token>>)
    requires GoesOn(whole, more, rest)
    ensures GoesOn(if whole.Ok? then Ok([t] + whole.value) else whole, [t] + more, rest)
  {
    var all := [t] + more;
    assert all[..|all| - 1] == [t] + more[..|more| - 1];
    if rest.Ok? { assert all[..|all| - 1] + rest.value == [t] + (more[..|more| - 1] + rest.value); }
  }

  lemma {:induction false} TokensBeside(
    short: nat -> Result<seq<Token>>, long: nat -> Result<seq<Token>>, s: string, x: string, i: nat)
    requires Scans(short, s) && Scans(long, s + x) && i <= |s| && x != "" && x[0] == ':' && short(i).Ok?
    ensures GoesOn(long(i), short(i).value, long(|s|))
    decreases |s| - i
  {
    if i == |s| {
      assert short(i) == TokensFrom(s, i) == Ok([End]);
      if long(i).Ok? { assert [End][..0] + long(i).value == long(i).value; }
    } else {
      assert (s + x)[i] == s[i];
      ScanStep(short, s, i);
      ScanStep(long, s + x, i);
      if IsSpace(s[i]) {
        TokensBeside(short, long, s, x, i + 1);
      } else {
        TokenBeside(s, x, i);
        var t, j := TokenAt(s, i).value.0, TokenAt(s, i).value.1;
        TokensBeside(short, long, s, x, j);
        GoesOnStep(long(j), t, short(j).value, long(|s|));
      }
    }
  }

  function ScanOf(s: string): (scan: nat -> Result<seq<Token>>)
    ensures Scans(scan, s)
  {
    (k: nat) => if k <= |s| then TokensFrom(s, k) else Err(ExpressionInvalid)
  }

  lemma ColonFirst(t: string, i: nat)
    requires i < |t| && t[i] == ':' && TokensFrom(t, i).Ok?
    ensures TokensFrom(t, i).value[0] == Colon
  {
  }

  lemma ColonTokens(s: string, x: string)
    requires Tokenize(s).Ok? && Tokenize(s + x).Ok? && x != "" && x[0] == ':'
    ensures var ts, us := Tokenize(s).value, Tokenize(s + x).value;
            0 < |ts| <= |us| && us[|ts| - 1] == Colon && forall i | 0 <= i < |ts| - 1 :: us[i] == ts[i]
  {
    var short, long := ScanOf(s), ScanOf(s + x);
    assert short(0) == Tokenize(s) && long(0) == Tokenize(s + x) && long(|s|) == TokensFrom(s + x, |s|);
    TokensBeside(short, long, s, x, 0);
    TokensAreWritable(s, 0);
    assert (s + x)[|s|] == ':';
    ColonFirst(s + x, |s|);
    SplitEnd(Tokenize(s).value, Tokenize(s + x).value, long(|s|).value);
  }

  // Outside quotes a colon only follows what is no whole expression; so no text that parses goes on, behind a
  // colon, to another text that parses.
  lemma ColonEnds(s: string, x: string, nums: NumberSyntax)
    requires ParseExpression(s, nums).Ok? && x != "" && x[0] == ':'
    ensures ParseExpression(s + x, nums).Err?
  {
    if Tokenize(s + x).Ok? {
      ColonTokens(s, x);
      TokensAreWritable(s, 0);
      TokensEnd(Tokenize(s).value, Tokenize(s + x).value, |Tokenize(s).value| - 1, nums);
    }
  }

  lemma SplitEnd(ts: seq<Token>, us: seq<Token>, rest: seq<Token>)
    requires ts != [] && rest != [] && us == ts[..|ts| - 1] + rest
    ensures |us| >= |ts| && us[|ts| - 1] == rest[0] && forall i | 0 <= i < |ts| - 1 :: us[i] == ts[i]
  {
  }

  lemma TokensEnd(ts: seq<Token>, us: seq<Token>, n: nat, nums: NumberSyntax)
    requires n < |ts| && n < |us| && ts[n] == End && us[n] == Colon && ParseTokens(ts, nums).Ok? && n == |ts| - 1
    requires forall i | 0 <= i < n :: us[i] == ts[i] && !ts[i].End?
    ensures ParseTokens(us, nums).Err?
  {
    var g, h := ReaderOf(ts, nums), ReaderOf(us, nums);
    assert g.expr(0, 0) == ParseExpr(ts, 0, 0, nums) && h.expr(0, 0) == ParseExpr(us, 0, 0, nums);
    ExprBeside(g, h, n, 0, 0);
    PeekBeside(g, h, n, g.expr(0, 0).value.1);
  }
}
