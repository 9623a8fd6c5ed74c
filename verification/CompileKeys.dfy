// The compile cache's keys, and when they tell apart what compiles differently.
module CompileKeys {
  import opened Values
  import opened Schema
  import Ast
  import opened Parser
  import opened Printer
  import opened Minimality
  import opened Locality
  import opened Texts
  import opened Fingerprint
  import opened Pipeline

  // A remote configuration. The mappings count as the JSON that stands for them.
  datatype Config = Config(
    idlCode: string, idlVersion: int, service: string, rpcMethod: string,
    requestMapping: string, responseMapping: string)

  // What a key holds of a factor's definition.
  datatype FactorDefinition = FactorDefinition(
    category: string, factorType: string, published: bool, input: Fields, output: Fields,
    dependencies: seq<string>, config: Config)

  type Definitions = map<string, FactorDefinition>

  // Of the definitions, only the output schemas matter to expressions.
  function Outputs(defs: Definitions): Registry {
    map code | code in defs :: defs[code].output
  }

  function Inserted(x: string, s: seq<string>): seq<string> {
    if s == [] || Before(x, s[0]) then [x] + s else [s[0]] + Inserted(x, s[1..])
  }

  function InOrder(s: seq<string>): seq<string> {
    if s == [] then [] else Inserted(s[0], InOrder(s[1..]))
  }

  function DependencyText(d: FactorDefinition): string {
    Commas(InOrder(d.dependencies))
  }

  // A definition's part of the fingerprint, and what follows it.
  function DefinitionText(code: string, d: FactorDefinition, rest: string): string {
    code + ("|" + (d.category + ("|" + (d.factorType + ("|" + (Flag(d.published) + ("|" + SchemasText(d, rest))))))))
  }

  function SchemasText(d: FactorDefinition, rest: string): string {
    SchemaFingerprint(d.input) +
    ("|" + (SchemaFingerprint(d.output) + ("|" + (DependencyText(d) + ("|" + ConfigText(d.config, rest))))))
  }

  function IntegerText(n: int): string {
    if n < 0 then "-" + Digits(-n) else Digits(n)
  }

  function ConfigText(c: Config, rest: string): string {
    c.idlCode +
    ("|" + (IntegerText(c.idlVersion) + ("|" + (c.service + ("|" + (c.rpcMethod + ("|" + MappingsText(c, rest))))))))
  }

  function MappingsText(c: Config, rest: string): string {
    c.requestMapping + ("|" + (c.responseMapping + (";" + rest)))
  }

  function RegistryText(defs: Definitions, codes: seq<string>): string
    requires forall code <- codes :: code in defs
  {
    if codes == [] then "" else DefinitionText(codes[0], defs[codes[0]], RegistryText(defs, codes[1..]))
  }

  function RegistryFingerprint(defs: Definitions): string {
    RegistryText(defs, Sorted(defs.Keys))
  }

  function CompileKey(source: string, defs: Definitions): string {
    source + ("::" + RegistryFingerprint(defs))
  }

  // Definitions whose fingerprints can be read back: no delimiter where it would be taken for the end of a
  // part, and plain schemas.

  ghost predicate Tight(schema: Fields) {
    PlainSchema(schema) && forall k | k in schema && k != "" :: k[0] != '}'
  }

  ghost predicate PlainDefinition(code: string, d: FactorDefinition) {
    '|' !in code && '|' !in d.category && '|' !in d.factorType && PlainDependencies(d.dependencies) &&
    PlainConfig(d.config) && Tight(d.input) && Tight(d.output)
  }

  predicate PlainDependencies(codes: seq<string>) {
    Separable(codes) && forall c <- codes :: '|' !in c
  }

  // JSON has its quotes closed, and the delimiters only inside them.
  predicate PlainConfig(c: Config) {
    '|' !in c.idlCode && '|' !in c.service && '|' !in c.rpcMethod &&
    Encloses(c.requestMapping, '|') && Encloses(c.responseMapping, ';')
  }

  ghost predicate PlainDefinitions(defs: Definitions) {
    forall code | code in defs :: PlainDefinition(code, defs[code])
  }

  // The same but for the order of the dependencies.
  ghost predicate Alike(d: FactorDefinition, e: FactorDefinition) {
    d.(dependencies := e.dependencies) == e && multiset(d.dependencies) == multiset(e.dependencies)
  }

  ghost predicate AllAlike(a: Definitions, b: Definitions) {
    a.Keys == b.Keys && forall code | code in a :: Alike(a[code], b[code])
  }

  lemma SchemaReadable(a: Fields, b: Fields, r: string, s: string)
    requires Tight(a) && Tight(b) && SchemaFingerprint(a) + r == SchemaFingerprint(b) + s
    ensures a == b && r == s
  {
    var f, g := FieldSchema(ObjectT, true, a, None), FieldSchema(ObjectT, true, b, None);
    if a != map[] && b != map[] {
      BracedReadable(f, g, r, s);
    } else if a != map[] {
      OnlyEmptyCloses(f, r);
      EmptyBraces(g, s);
    } else if b != map[] {
      OnlyEmptyCloses(g, s);
      EmptyBraces(f, r);
    } else {
      EmptyBraces(f, r);
      EmptyBraces(g, s);
      Cancel("{}", r, "{}", s);
    }
  }

  lemma EmptyBraces(f: FieldSchema, r: string)
    requires f.fields == map[]
    ensures Braced(f, Sorted(f.fields.Keys)) + r == "{}" + r
  {
    assert f.fields.Keys == {} && Braced(f, []) == "{}";
  }

  lemma OnlyEmptyCloses(f: FieldSchema, r: string)
    requires f.fields != map[] && forall k | k in f.fields && k != "" :: k[0] != '}'
    ensures |Braced(f, Sorted(f.fields.Keys)) + r| >= 2 && (Braced(f, Sorted(f.fields.Keys)) + r)[1] != '}'
  {
    var ks := Sorted(f.fields.Keys);
    SortedNonempty(f);
    assert ks[0] in f.fields;
    BraceAssoc(Members(f, ks), r);
    MembersStart(f, ks, r);
    var x := FieldFingerprint(f.fields[ks[0]]) + Following(f, ks, r);
    assert (Braced(f, ks) + r)[1] == (ks[0] + (":" + x))[0];
  }

  lemma DefinitionReadable(c: string, d: FactorDefinition, r: string, j: string, e: FactorDefinition, s: string)
    requires PlainDefinition(c, d) && PlainDefinition(j, e) && DefinitionText(c, d, r) == DefinitionText(j, e, s)
    ensures c == j && Alike(d, e) && r == s
  {
    var x, y := SchemasText(d, r), SchemasText(e, s);
    var x1, y1 := Flag(d.published) + ("|" + x), Flag(e.published) + ("|" + y);
    var x2, y2 := d.factorType + ("|" + x1), e.factorType + ("|" + y1);
    SplitAt('|', c, d.category + ("|" + x2), j, e.category + ("|" + y2));
    SplitAt('|', d.category, x2, e.category, y2);
    SplitAt('|', d.factorType, x1, e.factorType, y1);
    FlagReadable(d.published, "|" + x, e.published, "|" + y);
    Cancel("|", x, "|", y);
    SchemasReadable(d, r, e, s);
  }

  lemma SchemasReadable(d: FactorDefinition, r: string, e: FactorDefinition, s: string)
    requires PlainDefinition("", d) && PlainDefinition("", e) && SchemasText(d, r) == SchemasText(e, s)
    ensures d.input == e.input && d.output == e.output && multiset(d.dependencies) == multiset(e.dependencies)
    ensures d.config == e.config && r == s
  {
    var x, y := ConfigText(d.config, r), ConfigText(e.config, s);
    var x1, y1 := DependencyText(d) + ("|" + x), DependencyText(e) + ("|" + y);
    var x2, y2 := SchemaFingerprint(d.output) + ("|" + x1), SchemaFingerprint(e.output) + ("|" + y1);
    SchemaReadable(d.input, e.input, "|" + x2, "|" + y2);
    Cancel("|", x2, "|", y2);
    SchemaReadable(d.output, e.output, "|" + x1, "|" + y1);
    Cancel("|", x1, "|", y1);
    DependenciesReadable(d, x, e, y);
    ConfigReadable(d.config, r, e.config, s);
  }

  lemma DependenciesReadable(d: FactorDefinition, x: string, e: FactorDefinition, y: string)
    requires PlainDependencies(d.dependencies) && PlainDependencies(e.dependencies)
    requires DependencyText(d) + ("|" + x) == DependencyText(e) + ("|" + y)
    ensures multiset(d.dependencies) == multiset(e.dependencies) && x == y
  {
    PlainInOrder(d.dependencies);
    PlainInOrder(e.dependencies);
    SplitAt('|', DependencyText(d), x, DependencyText(e), y);
    DependencyTextExact(d, e);
  }

  lemma ConfigReadable(c: Config, r: string, d: Config, s: string)
    requires PlainConfig(c) && PlainConfig(d) && ConfigText(c, r) == ConfigText(d, s)
    ensures c == d && r == s
  {
    var x, y := MappingsText(c, r), MappingsText(d, s);
    var x1, y1 := c.rpcMethod + ("|" + x), d.rpcMethod + ("|" + y);
    var x2, y2 := c.service + ("|" + x1), d.service + ("|" + y1);
    SplitAt('|', c.idlCode, IntegerText(c.idlVersion) + ("|" + x2), d.idlCode, IntegerText(d.idlVersion) + ("|" + y2));
    IntegerReadable(c.idlVersion, d.idlVersion);
    SplitAt('|', IntegerText(c.idlVersion), x2, IntegerText(d.idlVersion), y2);
    SplitAt('|', c.service, x1, d.service, y1);
    SplitAt('|', c.rpcMethod, x, d.rpcMethod, y);
    MappingsReadable(c, r, d, s);
  }

  lemma MappingsReadable(c: Config, r: string, d: Config, s: string)
    requires PlainConfig(c) && PlainConfig(d) && MappingsText(c, r) == MappingsText(d, s)
    ensures c.requestMapping == d.requestMapping && c.responseMapping == d.responseMapping && r == s
  {
    SplitEnclosed('|', c.requestMapping, c.responseMapping + (";" + r),
                  d.requestMapping, d.responseMapping + (";" + s));
    SplitEnclosed(';', c.responseMapping, r, d.responseMapping, s);
  }

  lemma IntegerReadable(m: int, n: int)
    ensures '|' !in IntegerText(m) && '|' !in IntegerText(n)
    ensures IntegerText(m) == IntegerText(n) ==> m == n
  {
    var a, b := Digits(if m < 0 then -m else m), Digits(if n < 0 then -n else n);
    DigitsParse(if m < 0 then -m else m);
    DigitsParse(if n < 0 then -n else n);
    assert IsDigit(a[0]) && IsDigit(b[0]);
    if IntegerText(m) == IntegerText(n) {
      assert IntegerText(m)[0] == IntegerText(n)[0];
      if m < 0 { Cancel("-", a, "-", b); }
    }
  }

  // Dependencies are sorted before they are joined, so that their order does not matter.

  ghost predicate Ordered(s: seq<string>) {
    forall i, j | 0 <= i < j < |s| :: Before(s[i], s[j])
  }

  lemma {:induction false} InsertedSame(x: string, s: seq<string>)
    ensures multiset(Inserted(x, s)) == multiset(s) + multiset{x}
  {
    if s != [] && !Before(x, s[0]) {
      InsertedSame(x, s[1..]);
      assert s == [s[0]] + s[1..];
    }
  }

  lemma InFront(x: string, s: seq<string>)
    requires Ordered(s) && forall y <- s :: Before(x, y)
    ensures Ordered([x] + s)
  {
    forall i, j | 0 <= i < j < |s| + 1 ensures Before(([x] + s)[i], ([x] + s)[j]) {
      assert ([x] + s)[j] == s[j - 1] && (i > 0 ==> ([x] + s)[i] == s[i - 1]);
    }
  }

  lemma FirstIsLeast(s: seq<string>)
    requires Ordered(s) && s != []
    ensures Ordered(s[1..]) && forall y <- s :: Before(s[0], y)
  {
    BeforeTotal(s[0], s[0]);
  }

  lemma {:induction false} InsertedOrdered(x: string, s: seq<string>)
    requires Ordered(s)
    ensures Ordered(Inserted(x, s))
  {
    if s == [] { return; }
    FirstIsLeast(s);
    BeforeTotal(x, s[0]);
    if Before(x, s[0]) {
      forall y <- s ensures Before(x, y) { BeforeTransitive(x, s[0], y); }
      InFront(x, s);
    } else {
      InsertedOrdered(x, s[1..]);
      InsertedSame(x, s[1..]);
      forall y <- Inserted(x, s[1..]) ensures Before(s[0], y) {
        assert y in multiset(s[1..]) + multiset{x};
      }
      InFront(s[0], Inserted(x, s[1..]));
    }
  }

  lemma {:induction false} InOrderExact(s: seq<string>)
    ensures Ordered(InOrder(s)) && multiset(InOrder(s)) == multiset(s)
  {
    if s != [] {
      InOrderExact(s[1..]);
      InsertedOrdered(s[0], InOrder(s[1..]));
      InsertedSame(s[0], InOrder(s[1..]));
      assert s == [s[0]] + s[1..];
    }
  }

  lemma TailMultiset(s: seq<string>)
    requires s != []
    ensures s == [s[0]] + s[1..] && multiset(s[1..]) == multiset(s) - multiset{s[0]}
  {
    assert s == [s[0]] + s[1..];
  }

  lemma {:induction false} OrderedUnique(a: seq<string>, b: seq<string>)
    requires Ordered(a) && Ordered(b) && multiset(a) == multiset(b)
    ensures a == b
  {
    assert |a| == |multiset(a)| == |multiset(b)| == |b|;
    if a != [] {
      FirstIsLeast(a);
      FirstIsLeast(b);
      assert a[0] in multiset(b) && b[0] in multiset(a);
      BeforeTotal(a[0], b[0]);
      TailMultiset(a);
      TailMultiset(b);
      OrderedUnique(a[1..], b[1..]);
    }
  }

  lemma PlainInOrder(codes: seq<string>)
    requires PlainDependencies(codes)
    ensures PlainDependencies(InOrder(codes)) && '|' !in Commas(InOrder(codes))
  {
    InOrderExact(codes);
    forall p <- InOrder(codes) ensures p in codes { assert p in multiset(codes); }
    CommasClean(InOrder(codes), '|');
  }

  // The text of the dependencies forgets their order; on plain ones, nothing else.

  lemma OrderForgotten(d: FactorDefinition, e: FactorDefinition)
    requires multiset(d.dependencies) == multiset(e.dependencies)
    ensures DependencyText(d) == DependencyText(e)
  {
    InOrderExact(d.dependencies);
    InOrderExact(e.dependencies);
    OrderedUnique(InOrder(d.dependencies), InOrder(e.dependencies));
  }

  lemma DependencyTextExact(d: FactorDefinition, e: FactorDefinition)
    requires PlainDependencies(d.dependencies) && PlainDependencies(e.dependencies)
    ensures DependencyText(d) == DependencyText(e) <==> multiset(d.dependencies) == multiset(e.dependencies)
  {
    if multiset(d.dependencies) == multiset(e.dependencies) {
      OrderForgotten(d, e);
    } else if DependencyText(d) == DependencyText(e) {
      PlainInOrder(d.dependencies);
      PlainInOrder(e.dependencies);
      CommasReadable(InOrder(d.dependencies), InOrder(e.dependencies));
      InOrderExact(d.dependencies);
      InOrderExact(e.dependencies);
    }
  }

  lemma OnlyNothingIsEmpty(defs: Definitions, codes: seq<string>)
    requires forall c <- codes :: c in defs
    ensures RegistryText(defs, codes) == "" <==> codes == []
  {
  }

  lemma {:induction false} RegistryReadable(a: Definitions, cs: seq<string>, b: Definitions, js: seq<string>)
    requires PlainDefinitions(a) && PlainDefinitions(b)
    requires (forall c <- cs :: c in a) && (forall j <- js :: j in b) && RegistryText(a, cs) == RegistryText(b, js)
    ensures cs == js && forall c <- cs :: Alike(a[c], b[c])
    decreases |cs|
  {
    OnlyNothingIsEmpty(a, cs);
    OnlyNothingIsEmpty(b, js);
    if cs != [] {
      DefinitionReadable(cs[0], a[cs[0]], RegistryText(a, cs[1..]), js[0], b[js[0]], RegistryText(b, js[1..]));
      RegistryReadable(a, cs[1..], b, js[1..]);
      HeadAndTail(cs, js);
    }
  }

  lemma {:induction false} AlikeTexts(a: Definitions, b: Definitions, cs: seq<string>)
    requires AllAlike(a, b) && forall c <- cs :: c in a
    ensures RegistryText(a, cs) == RegistryText(b, cs)
  {
    if cs != [] {
      AlikeTexts(a, b, cs[1..]);
      assert Alike(a[cs[0]], b[cs[0]]);
      OrderForgotten(a[cs[0]], b[cs[0]]);
    }
  }

  // On plain definitions equal fingerprints mean equal definitions, but for the order of dependencies.
  lemma RegistryFingerprintExact(a: Definitions, b: Definitions)
    requires PlainDefinitions(a) && PlainDefinitions(b)
    ensures RegistryFingerprint(a) == RegistryFingerprint(b) <==> AllAlike(a, b)
    ensures AllAlike(a, b) ==> Outputs(a) == Outputs(b)
  {
    if RegistryFingerprint(a) == RegistryFingerprint(b) {
      RegistryReadable(a, Sorted(a.Keys), b, Sorted(b.Keys));
      SameElements(Sorted(a.Keys), a.Keys, b.Keys);
    } else if AllAlike(a, b) {
      AlikeTexts(a, b, Sorted(a.Keys));
    }
    if AllAlike(a, b) { AlikeOutputs(a, b); }
  }

  lemma SameElements(s: seq<string>, a: set<string>, b: set<string>)
    requires (forall k :: k in s <==> k in a) && (forall k :: k in s <==> k in b)
    ensures a == b
  {
  }

  lemma AlikeOutputs(a: Definitions, b: Definitions)
    requires AllAlike(a, b)
    ensures Outputs(a) == Outputs(b)
  {
    forall c | c in a ensures Outputs(a)[c] == Outputs(b)[c] { assert Alike(a[c], b[c]); }
  }

  // The keys of texts that parse part at the same place, whatever the definitions are.
  lemma ParsedTextsSplit(s: string, f: string, t: string, g: string, nums: NumberSyntax)
    requires ParseExpression(s, nums).Ok? && ParseExpression(t, nums).Ok? && s + ("::" + f) == t + ("::" + g)
    ensures s == t && f == g
  {
    if |s| < |t| {
      LongerText(s, f, t, g);
      ColonEnds(s, t[|s|..], nums);
    } else if |t| < |s| {
      LongerText(t, g, s, f);
      ColonEnds(t, s[|t|..], nums);
    } else {
      Cancel(s, "::" + f, t, "::" + g);
      Cancel("::", f, "::", g);
    }
  }

  lemma LongerText(s: string, f: string, t: string, g: string)
    requires |s| < |t| && s + ("::" + f) == t + ("::" + g)
    ensures t == s + t[|s|..] && t[|s|] == ':'
  {
    var k := s + ("::" + f);
    assert k[..|s|] == s && k[..|t|] == t && k[|s|] == ':';
  }

  // Fingerprints in which the mark between text and fingerprint does not occur.
  ghost predicate Sealed(f: string) {
    (f != "" ==> f[0] != ':') && forall i | 0 <= i < |f| - 1 :: f[i] != ':' || f[i + 1] != ':'
  }

  // With sealed fingerprints the keys of all texts part at the same place.
  lemma SealedSplit(s: string, f: string, t: string, g: string)
    requires Sealed(f) && Sealed(g) && s + ("::" + f) == t + ("::" + g)
    ensures s == t && f == g
  {
    if |s| < |t| {
      MarkInside(s, f, t, g);
    } else if |t| < |s| {
      MarkInside(t, g, s, f);
    } else {
      Cancel(s, "::" + f, t, "::" + g);
      Cancel("::", f, "::", g);
    }
  }

  lemma MarkInside(s: string, f: string, t: string, g: string)
    requires |s| < |t| && s + ("::" + f) == t + ("::" + g)
    ensures !Sealed(f)
  {
    var k, d := s + ("::" + f), |t| - |s|;
    assert k[|t|] == ':' && k[|t| + 1] == ':';
    assert forall i | |s| + 2 <= i < |k| :: k[i] == f[i - |s| - 2];
    if d >= 2 { assert f[d - 2] == ':' && f[d - 1] == ':'; } else { assert f[0] == ':'; }
  }

  // What a caller can make sure of before asking for a compilation: the definitions are plain, and either all
  // texts are known to parse or all fingerprints are sealed.
  ghost predicate Admissible(source: string, defs: Definitions, nums: NumberSyntax, sealed: bool) {
    PlainDefinitions(defs) && if sealed then Sealed(RegistryFingerprint(defs)) else ParseExpression(source, nums).Ok?
  }

  // Then keys are equal exactly for the same text over the same definitions, but for the order of dependencies.
  lemma CompileKeyExact(s: string, a: Definitions, t: string, b: Definitions, nums: NumberSyntax, sealed: bool)
    requires Admissible(s, a, nums, sealed) && Admissible(t, b, nums, sealed)
    ensures CompileKey(s, a) == CompileKey(t, b) <==> s == t && AllAlike(a, b)
    ensures CompileKey(s, a) == CompileKey(t, b) ==> Outputs(a) == Outputs(b)
  {
    RegistryFingerprintExact(a, b);
    if CompileKey(s, a) == CompileKey(t, b) {
      if sealed {
        SealedSplit(s, RegistryFingerprint(a), t, RegistryFingerprint(b));
      } else {
        ParsedTextsSplit(s, RegistryFingerprint(a), t, RegistryFingerprint(b), nums);
      }
    }
  }

  // Where the conditions fail, keys confuse what compiles differently.

  function Defined(output: Fields): FactorDefinition {
    FactorDefinition("RPC", "THRIFT_INVOKER", true, map[], output, [], Config("", 0, "", "", "null", "null"))
  }

  const TWO_FIELDS: Fields := map["a" := Scalar(IntT), "b" := Scalar(IntT)]

  const ONE_FIELD: Fields := map["a" + ":" + FieldFingerprint(Scalar(IntT)) + "," + "b" := Scalar(IntT)]

  const HAS_FIELDS: Definitions := map["f" := Defined(TWO_FIELDS)]

  const HAS_IMITATION: Definitions := map["f" := Defined(ONE_FIELD)]

  const SOURCE := Ast.FactorRefExpr(FactorRef("f", ["a"]))

  // A field name with a colon: the rule `f.a` has the same key over {a, b} and over one field whose name
  // imitates them, and compiles over the first only.
  lemma FieldNameConfuses(lang: Language)
    ensures var source := PrintExpression(SOURCE, lang.nums);
            CompileKey(source, HAS_FIELDS) == CompileKey(source, HAS_IMITATION) &&
            BindString(source, Outputs(HAS_FIELDS), lang).Ok? &&
            BindString(source, Outputs(HAS_IMITATION), lang) == Err(FieldNotFound)
  {
    var d, e := Defined(TWO_FIELDS), Defined(ONE_FIELD);
    ColonCollides("a", Scalar(IntT), "b", Scalar(IntT));
    assert SchemaFingerprint(TWO_FIELDS) == SchemaFingerprint(ONE_FIELD);
    OneDefinition("f", d);
    OneDefinition("f", e);
    OneOutput("f", d);
    OneOutput("f", e);
    SourceBinds(lang);
  }

  lemma OneOutput(code: string, d: FactorDefinition)
    ensures Outputs(map[code := d]) == map[code := d.output]
  {
  }

  lemma SourceParses(nums: NumberSyntax)
    ensures Parsable(SOURCE, nums)
  {
    assert ["f"] + ["a"] == ["f", "a"] && ["f", "a"][1..] == ["a"];
    assert Join(["a"]) == "a" && Join(["f", "a"]) == "f.a";
  }

  lemma OneDefinition(code: string, d: FactorDefinition)
    ensures RegistryFingerprint(map[code := d]) == DefinitionText(code, d, "")
  {
    var defs: Definitions := map[code := d];
    SortedOne(code);
    assert defs.Keys == {code} && [code][1..] == [];
    assert RegistryText(defs, []) == "";
  }

  lemma SourceBinds(lang: Language)
    ensures var source := PrintExpression(SOURCE, lang.nums);
            BindString(source, map["f" := TWO_FIELDS], lang).Ok? &&
            BindString(source, map["f" := ONE_FIELD], lang) == Err(FieldNotFound)
  {
    SourceParses(lang.nums);
    TextRoundTrip(SOURCE, lang.nums);
    assert SchemaAt(TWO_FIELDS, ["a"]) == Ok(Scalar(IntT));
    assert |"a" + ":" + FieldFingerprint(Scalar(IntT)) + "," + "b"| > 1;
    assert SchemaAt(ONE_FIELD, ["a"]) == Err(FieldNotFound);
  }

  // A factor code with the mark in it: any text over it has the key of a longer text, and the longer text does
  // not parse if the shorter one does.
  lemma FactorCodeConfuses(source: string, x: string, code: string, d: FactorDefinition, nums: NumberSyntax)
    ensures CompileKey(source, map[x + "::" + code := d]) == CompileKey(source + "::" + x, map[code := d])
    ensures ParseExpression(source, nums).Ok? ==> ParseExpression(source + "::" + x, nums).Err?
  {
    OneDefinition(x + "::" + code, d);
    OneDefinition(code, d);
    Regroup(source, x, code, d);
    MarkedTextFails(source, x, nums);
  }

  lemma MarkedTextFails(source: string, x: string, nums: NumberSyntax)
    ensures ParseExpression(source, nums).Ok? ==> ParseExpression(source + "::" + x, nums).Err?
  {
    if ParseExpression(source, nums).Ok? {
      assert source + "::" + x == source + ("::" + x);
      ColonEnds(source, "::" + x, nums);
    }
  }

  lemma Regroup(source: string, x: string, code: string, d: FactorDefinition)
    ensures source + ("::" + DefinitionText(x + "::" + code, d, "")) ==
            source + "::" + x + ("::" + DefinitionText(code, d, ""))
  {
    var tail := "|" + (d.category + ("|" + (d.factorType + ("|" + (Flag(d.published) + ("|" + SchemasText(d, "")))))));
    RegroupTexts(source, x, code, tail);
  }

  lemma RegroupTexts(source: string, x: string, code: string, tail: string)
    ensures source + ("::" + (x + "::" + code + tail)) == source + "::" + x + ("::" + (code + tail))
  {
    Assoc(x + "::", code, tail);
    Assoc(x, "::", code + tail);
    Assoc("::", x, "::" + (code + tail));
    Assoc(source, "::", x);
    Assoc(source, "::" + x, "::" + (code + tail));
  }
}
