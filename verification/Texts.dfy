// Texts that are joined by delimiters, and when they can be read back.
module Texts {
  lemma Assoc(a: string, b: string, c: string)
    ensures (a + b) + c == a + (b + c)
  {
  }

  lemma Assoc5(a: string, b: string, c: string, d: string, e: string)
    ensures a + b + (c + d) + e == a + (b + (c + (d + e)))
  {
    Assoc(a + b, c + d, e);
    Assoc(c, d, e);
    Assoc(a, b, c + (d + e));
  }

  lemma Cancel(a: string, x: string, b: string, y: string)
    requires |a| == |b| && a + x == b + y
    ensures a == b && x == y
  {
    assert a == (a + x)[..|a|] && x == (a + x)[|a|..];
    assert b == (b + y)[..|b|] && y == (b + y)[|b|..];
  }

  // A part without the delimiter ends at the first one.
  lemma SplitAt(c: char, a: string, x: string, b: string, y: string)
    requires c !in a && c !in b && a + ([c] + x) == b + ([c] + y)
    ensures a == b && x == y
  {
    var s := a + ([c] + x);
    assert s[|a|] == c && s[|b|] == c;
    assert forall i | 0 <= i < |a| :: s[i] == a[i];
    assert forall i | 0 <= i < |b| :: s[i] == b[i];
    assert |a| == |b|;
    Cancel(a, [c] + x, b, [c] + y);
    Cancel([c], x, [c], y);
  }

  // Where a text stands with regard to double quotes.
  datatype Quoting = Outside | Inside | Escaped

  function Onward(q: Quoting, c: char): Quoting {
    match q
    case Outside => if c == '"' then Inside else Outside
    case Inside => if c == '"' then Outside else if c == '\\' then Escaped else Inside
    case Escaped => Inside
  }

  function QuotingAt(s: string, i: nat): Quoting
    requires i <= |s|
  {
    if i == 0 then Outside else Onward(QuotingAt(s, i - 1), s[i - 1])
  }

  // Quotes are closed, and the delimiter only occurs inside them.
  predicate Encloses(s: string, c: char) {
    QuotingAt(s, |s|).Outside? && forall i | 0 <= i < |s| && s[i] == c :: !QuotingAt(s, i).Outside?
  }

  lemma {:induction false} QuotingOfPrefix(s: string, x: string, i: nat)
    requires i <= |s|
    ensures QuotingAt(s + x, i) == QuotingAt(s, i)
  {
    if i > 0 { QuotingOfPrefix(s, x, i - 1); }
  }

  // Such a part ends at the first delimiter outside quotes.
  lemma SplitEnclosed(c: char, a: string, x: string, b: string, y: string)
    requires Encloses(a, c) && Encloses(b, c) && a + ([c] + x) == b + ([c] + y)
    ensures a == b && x == y
  {
    if |a| < |b| {
      EndsFirst(c, a, x, b, y);
    } else if |b| < |a| {
      EndsFirst(c, b, y, a, x);
    } else {
      Cancel(a, [c] + x, b, [c] + y);
      Cancel([c], x, [c], y);
    }
  }

  lemma EndsFirst(c: char, a: string, x: string, b: string, y: string)
    requires Encloses(a, c) && |a| < |b| && a + ([c] + x) == b + ([c] + y)
    ensures !Encloses(b, c)
  {
    QuotingOfPrefix(a, [c] + x, |a|);
    QuotingOfPrefix(b, [c] + y, |a|);
    assert b[|a|] == (b + ([c] + y))[|a|] == (a + ([c] + x))[|a|] == c;
  }

  function Commas(parts: seq<string>): string {
    if parts == [] then "" else if |parts| == 1 then parts[0] else parts[0] + ("," + Commas(parts[1..]))
  }

  // Parts that can be read back from a list of them: not empty, and without commas.
  predicate Separable(parts: seq<string>) {
    forall p <- parts :: p != "" && ',' !in p
  }

  lemma {:induction false} CommasReadable(a: seq<string>, b: seq<string>)
    requires Separable(a) && Separable(b) && Commas(a) == Commas(b)
    ensures a == b
  {
    if |a| >= 2 && |b| >= 2 {
      assert a[0] in a && b[0] in b;
      assert Commas(a) == a[0] + ("," + Commas(a[1..])) && Commas(b) == b[0] + ("," + Commas(b[1..]));
      SplitAt(',', a[0], Commas(a[1..]), b[0], Commas(b[1..]));
      SeparableTail(a);
      SeparableTail(b);
      CommasReadable(a[1..], b[1..]);
      assert a == [a[0]] + a[1..] && b == [b[0]] + b[1..];
    } else {
      CommaCount(a);
      CommaCount(b);
    }
  }

  lemma SeparableTail(a: seq<string>)
    requires Separable(a) && a != []
    ensures Separable(a[1..])
  {
    forall p <- a[1..] ensures p != "" && ',' !in p { assert p in a; }
  }

  lemma CommaCount(a: seq<string>)
    requires Separable(a)
    ensures (|a| >= 2 <==> ',' in Commas(a)) && (a == [] <==> Commas(a) == "")
  {
    if |a| >= 2 {
      assert Commas(a)[|a[0]|] == ',';
    } else if |a| == 1 {
      assert a[0] in a;
    }
  }

  lemma {:induction false} CommasClean(parts: seq<string>, c: char)
    requires c != ',' && forall p <- parts :: c !in p
    ensures c !in Commas(parts)
  {
    if |parts| > 1 { CommasClean(parts[1..], c); }
  }
}
