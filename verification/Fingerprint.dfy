// Fingerprints of schemas, which the compile cache uses in its keys.
module Fingerprint {
  import opened Values
  import opened Operators
  import opened Schema
  import opened Texts

  function TypeName(t: ValueType): string {
    match t
    case StringT => "STRING"
    case IntT => "INT"
    case LongT => "LONG"
    case BoolT => "BOOL"
    case DoubleT => "DOUBLE"
    case ObjectT => "OBJECT"
    case ListT => "LIST"
    case MapT => "MAP"
    case NullT => "NULL"
    case Unset => ""
  }

  // Lexicographic order, as strings are sorted.
  predicate Before(a: string, b: string) {
    a == "" || (b != "" && (a[0] < b[0] || (a[0] == b[0] && Before(a[1..], b[1..]))))
  }

  lemma {:induction false} BeforeTotal(a: string, b: string)
    ensures Before(a, b) || Before(b, a)
    ensures Before(a, b) && Before(b, a) ==> a == b
  {
    if a != "" && b != "" && a[0] == b[0] {
      BeforeTotal(a[1..], b[1..]);
      assert a == [a[0]] + a[1..] && b == [b[0]] + b[1..];
    }
  }

  lemma {:induction false} BeforeTransitive(a: string, b: string, c: string)
    requires Before(a, b) && Before(b, c)
    ensures Before(a, c)
  {
    if a != "" && b != "" && c != "" && a[0] == b[0] == c[0] { BeforeTransitive(a[1..], b[1..], c[1..]); }
  }

  predicate Least(k: string, ks: set<string>) {
    k in ks && forall j | j in ks :: Before(k, j)
  }

  lemma {:induction false} LeastOf(ks: set<string>) returns (k: string)
    requires ks != {}
    ensures Least(k, ks)
  {
    var x :| x in ks;
    var rest := ks - {x};
    BeforeTotal(x, x);
    if rest == {} {
      assert ks == {x};
      k := x;
    } else {
      var m := LeastOf(rest);
      BeforeTotal(m, x);
      k := if Before(m, x) then m else x;
      forall j | j in ks ensures Before(k, j) {
        if j != x && k == x { BeforeTransitive(x, m, j); }
      }
    }
  }

  lemma LeastExists(ks: set<string>)
    requires ks != {}
    ensures exists k :: Least(k, ks)
    ensures forall j, k | Least(j, ks) && Least(k, ks) :: j == k
  {
    var _ := LeastOf(ks);
    forall j, k | Least(j, ks) && Least(k, ks) ensures j == k { BeforeTotal(j, k); }
  }

  function Sorted(ks: set<string>): (s: seq<string>)
    ensures forall k :: k in s <==> k in ks
    ensures |s| == |ks|
  {
    if ks == {} then [] else
    LeastExists(ks);
    var k :| Least(k, ks);
    [k] + Sorted(ks - {k})
  }

  lemma {:induction false} BeforeExact(a: string, b: string)
    ensures Before(a, b) <==> a == b || StringLess(a, b)
  {
    if a != "" && b != "" && a[0] == b[0] {
      BeforeExact(a[1..], b[1..]);
      assert a == [a[0]] + a[1..] && b == [b[0]] + b[1..];
    }
  }

  ghost predicate Ascending(s: seq<string>) {
    forall i, j | 0 <= i < j < |s| :: StringLess(s[i], s[j])
  }

  lemma AscendingPushed(k: string, s: seq<string>)
    requires Ascending(s) && forall j <- s :: StringLess(k, j)
    ensures Ascending([k] + s)
  {
    var t := [k] + s;
    forall i, j | 0 <= i < j < |t| ensures StringLess(t[i], t[j]) {
      assert t[j] == s[j - 1] && (i > 0 ==> t[i] == s[i - 1]);
    }
  }

  // Codes and names are written in ascending order.
  lemma {:induction false} SortedAscending(ks: set<string>)
    ensures Ascending(Sorted(ks))
    decreases |ks|
  {
    if ks != {} {
      LeastExists(ks);
      var k :| Least(k, ks) && Sorted(ks) == [k] + Sorted(ks - {k});
      SortedAscending(ks - {k});
      forall j <- Sorted(ks - {k}) ensures StringLess(k, j) { BeforeExact(k, j); }
      AscendingPushed(k, Sorted(ks - {k}));
    }
  }

  function Flag(b: bool): string {
    if b then "true" else "false"
  }

  function FieldFingerprint(f: FieldSchema): string
    decreases f, 1
  {
    TypeName(f.typ) + ":" + (Flag(f.required) + Tail(f))
  }

  function Tail(f: FieldSchema): string
    decreases f, 0
  {
    (if f.elem.Some? then ":elem=" + FieldFingerprint(f.elem.value) else "") +
    (if f.fields != map[] then ":fields=" + Braced(f, Sorted(f.fields.Keys)) else "")
  }

  function Braced(f: FieldSchema, ks: seq<string>): string
    requires forall k <- ks :: k in f.fields
    decreases f, 0, |ks|, 1
  {
    "{" + (Members(f, ks) + "}")
  }

  function Members(f: FieldSchema, ks: seq<string>): string
    requires forall k <- ks :: k in f.fields
    decreases f, 0, |ks|, 0
  {
    if ks == [] then ""
    else ks[0] + ":" + (FieldFingerprint(f.fields[ks[0]]) + if |ks| == 1 then "" else "," + Members(f, ks[1..]))
  }

  // A schema is fingerprinted like the fields of an object.
  function SchemaFingerprint(schema: Fields): string {
    Braced(FieldSchema(ObjectT, true, schema, None), Sorted(schema.Keys))
  }

  // Schemas whose fingerprints can be read back: names without a colon, and no field with both an element
  // type and fields of its own.
  ghost predicate Plain(f: FieldSchema)
    decreases f
  {
    (f.elem.None? || f.fields == map[]) && (f.elem.Some? ==> Plain(f.elem.value)) &&
    forall k | k in f.fields :: ':' !in k && Plain(f.fields[k])
  }

  // What may come after a field's fingerprint.
  predicate Ends(rest: string) {
    rest == "" || rest[0] == ',' || rest[0] == '}'
  }

  lemma FlagReadable(b: bool, x: string, c: bool, y: string)
    requires Flag(b) + x == Flag(c) + y
    ensures b == c && x == y
  {
    assert (Flag(b) + x)[0] == Flag(b)[0] && (Flag(c) + y)[0] == Flag(c)[0];
    Cancel(Flag(b), x, Flag(c), y);
  }

  lemma TypeNameInjective(t: ValueType, u: ValueType)
    ensures ':' !in TypeName(t) && (TypeName(t) == TypeName(u) ==> t == u)
  {
    assert |TypeName(t)| > 1 ==> TypeName(t)[1] == TypeName(t)[1];
    assert |TypeName(u)| > 1 ==> TypeName(u)[1] == TypeName(u)[1];
  }

  lemma HeadReadable(t: ValueType, b: bool, x: string, r: string, u: ValueType, c: bool, y: string, s: string)
    requires TypeName(t) + ":" + (Flag(b) + x) + r == TypeName(u) + ":" + (Flag(c) + y) + s
    ensures t == u && b == c && x + r == y + s
  {
    Assoc5(TypeName(t), ":", Flag(b), x, r);
    Assoc5(TypeName(u), ":", Flag(c), y, s);
    TypeNameInjective(t, u);
    TypeNameInjective(u, t);
    SplitAt(':', TypeName(t), Flag(b) + (x + r), TypeName(u), Flag(c) + (y + s));
    FlagReadable(b, x + r, c, y + s);
  }

  lemma {:induction false} FieldReadable(f: FieldSchema, g: FieldSchema, r: string, s: string)
    requires Plain(f) && Plain(g) && Ends(r) && Ends(s)
    requires FieldFingerprint(f) + r == FieldFingerprint(g) + s
    ensures f == g && r == s
    decreases f, 3
  {
    HeadReadable(f.typ, f.required, Tail(f), r, g.typ, g.required, Tail(g), s);
    TailReadable(f, g, r, s);
  }

  const ELEM := ":elem="
  const FIELDS := ":fields="

  // What a tail starts with: nothing of its own, an element type, or fields.
  lemma TailStart(f: FieldSchema, r: string)
    requires Plain(f)
    ensures f.elem.None? && f.fields == map[] ==> Tail(f) + r == r
    ensures f.elem.Some? ==> Tail(f) + r == ELEM + (FieldFingerprint(f.elem.value) + r)
    ensures f.fields != map[] ==> Tail(f) + r == FIELDS + (Braced(f, Sorted(f.fields.Keys)) + r)
  {
    if f.elem.Some? {
      TailAlone(ELEM, FieldFingerprint(f.elem.value), r);
    } else if f.fields != map[] {
      TailAlone(FIELDS, Braced(f, Sorted(f.fields.Keys)), r);
    } else {
      TailAlone("", "", r);
    }
  }

  lemma TailAlone(mark: string, x: string, r: string)
    ensures mark + x + "" + r == mark + (x + r) && "" + (mark + x) + r == mark + (x + r)
    ensures "" + "" + r == r
  {
    assert mark + x + "" == mark + x && "" + (mark + x) == mark + x;
    Assoc(mark, x, r);
  }

  lemma StartsDiffer(x: string, y: string, r: string)
    requires Ends(r)
    ensures ELEM + x != r && FIELDS + x != r && ELEM + x != FIELDS + y
  {
    assert (ELEM + x)[0] == ':' && (ELEM + x)[1] == 'e';
    assert (FIELDS + y)[0] == ':' && (FIELDS + y)[1] == 'f' && (FIELDS + x)[0] == ':';
  }

  lemma {:induction false} TailReadable(f: FieldSchema, g: FieldSchema, r: string, s: string)
    requires Plain(f) && Plain(g) && Ends(r) && Ends(s) && Tail(f) + r == Tail(g) + s
    ensures f.elem == g.elem && f.fields == g.fields && r == s
    decreases f, 2
  {
    TailStart(f, r);
    TailStart(g, s);
    var fe := if f.elem.Some? then FieldFingerprint(f.elem.value) + r else "";
    var ge := if g.elem.Some? then FieldFingerprint(g.elem.value) + s else "";
    var ff, gf := Braced(f, Sorted(f.fields.Keys)) + r, Braced(g, Sorted(g.fields.Keys)) + s;
    StartsDiffer(fe, gf, s);
    StartsDiffer(ge, ff, r);
    StartsDiffer(ff, ff, s);
    StartsDiffer(gf, gf, r);
    if f.elem.Some? {
      Cancel(ELEM, fe, ELEM, ge);
      FieldReadable(f.elem.value, g.elem.value, r, s);
    } else if f.fields != map[] {
      Cancel(FIELDS, ff, FIELDS, gf);
      BracedReadable(f, g, r, s);
    }
  }

  lemma {:induction false} BracedReadable(f: FieldSchema, g: FieldSchema, r: string, s: string)
    requires Plain(f) && Plain(g) && f.fields != map[] && g.fields != map[]
    requires Braced(f, Sorted(f.fields.Keys)) + r == Braced(g, Sorted(g.fields.Keys)) + s
    ensures f.fields == g.fields && r == s
    decreases f, 1
  {
    var ks, js := Sorted(f.fields.Keys), Sorted(g.fields.Keys);
    SortedNonempty(f);
    SortedNonempty(g);
    BraceAssoc(Members(f, ks), r);
    BraceAssoc(Members(g, js), s);
    Cancel("{", Members(f, ks) + ("}" + r), "{", Members(g, js) + ("}" + s));
    MembersReadable(f, ks, g, js, r, s);
    SameFields(f, g, ks);
  }

  lemma SortedNonempty(f: FieldSchema)
    requires f.fields != map[]
    ensures Sorted(f.fields.Keys) != []
  {
    var k :| k in f.fields;
    assert k in Sorted(f.fields.Keys);
  }

  lemma SameFields(f: FieldSchema, g: FieldSchema, ks: seq<string>)
    requires (forall k :: k in ks <==> k in f.fields) && (forall k :: k in ks <==> k in g.fields)
    requires forall k <- ks :: f.fields[k] == g.fields[k]
    ensures f.fields == g.fields
  {
  }

  lemma BraceAssoc(x: string, r: string)
    ensures "{" + (x + "}") + r == "{" + (x + ("}" + r))
  {
    Assoc("{", x + "}", r);
    Assoc(x, "}", r);
  }

  // What follows the first member: the closing brace, or a comma and the others.
  ghost function Following(f: FieldSchema, ks: seq<string>, r: string): string
    requires (forall k <- ks :: k in f.fields) && ks != []
  {
    if |ks| == 1 then "}" + r else "," + (Members(f, ks[1..]) + ("}" + r))
  }

  lemma MembersStart(f: FieldSchema, ks: seq<string>, r: string)
    requires (forall k <- ks :: k in f.fields) && ks != []
    ensures Members(f, ks) + ("}" + r) == ks[0] + (":" + (FieldFingerprint(f.fields[ks[0]]) + Following(f, ks, r)))
  {
    var x := FieldFingerprint(f.fields[ks[0]]);
    if |ks| == 1 {
      assert x + "" == x;
      Assoc5(ks[0], ":", x, "", "}" + r);
      assert "" + ("}" + r) == "}" + r;
    } else {
      Assoc5(ks[0], ":", x, "," + Members(f, ks[1..]), "}" + r);
      Assoc(",", Members(f, ks[1..]), "}" + r);
    }
  }

  lemma {:induction false} MembersReadable(f: FieldSchema, ks: seq<string>, g: FieldSchema, js: seq<string>,
                                           r: string, s: string)
    requires Plain(f) && Plain(g) && (forall k <- ks :: k in f.fields) && (forall j <- js :: j in g.fields)
    requires ks != [] && js != [] && Members(f, ks) + ("}" + r) == Members(g, js) + ("}" + s)
    ensures ks == js && (forall k <- ks :: f.fields[k] == g.fields[k]) && r == s
    decreases f, 0, |ks|
  {
    MembersStart(f, ks, r);
    MembersStart(g, js, s);
    var x, y := Following(f, ks, r), Following(g, js, s);
    SplitAt(':', ks[0], FieldFingerprint(f.fields[ks[0]]) + x, js[0], FieldFingerprint(g.fields[js[0]]) + y);
    FollowingSame(f, ks, g, js, r, s);
    FieldReadable(f.fields[ks[0]], g.fields[js[0]], x, y);
    HeadAndTail(ks, js);
    if |ks| > 1 {
      MembersReadable(f, ks[1..], g, js[1..], r, s);
    }
  }

  lemma HeadAndTail(ks: seq<string>, js: seq<string>)
    requires ks != [] && js != []
    ensures ks[0] == js[0] && ks[1..] == js[1..] ==> ks == js
    ensures forall k | k in ks :: k == ks[0] || k in ks[1..]
    ensures |ks| == |js| == 1 && ks[0] == js[0] ==> ks == js
  {
    assert ks == [ks[0]] + ks[1..] && js == [js[0]] + js[1..];
  }

  lemma FollowingSame(f: FieldSchema, ks: seq<string>, g: FieldSchema, js: seq<string>, r: string, s: string)
    requires (forall k <- ks :: k in f.fields) && (forall j <- js :: j in g.fields) && ks != [] && js != []
    ensures Ends(Following(f, ks, r)) && Ends(Following(g, js, s))
    ensures Following(f, ks, r) == Following(g, js, s) ==>
              (|ks| == 1 <==> |js| == 1) &&
              if |ks| == 1 then r == s else Members(f, ks[1..]) + ("}" + r) == Members(g, js[1..]) + ("}" + s)
  {
    var x, y := Following(f, ks, r), Following(g, js, s);
    assert x[0] == (if |ks| == 1 then '}' else ',') && y[0] == if |js| == 1 then '}' else ',';
    if x == y {
      if |ks| == 1 { Cancel("}", r, "}", s); }
      else { Cancel(",", Members(f, ks[1..]) + ("}" + r), ",", Members(g, js[1..]) + ("}" + s)); }
    }
  }

  ghost predicate PlainSchema(schema: Fields) {
    forall k | k in schema :: ':' !in k && Plain(schema[k])
  }

  // On plain schemas, equal fingerprints mean equal schemas: a cache key cannot confuse two of them.
  lemma FingerprintInjective(a: Fields, b: Fields)
    requires PlainSchema(a) && PlainSchema(b)
    ensures SchemaFingerprint(a) == SchemaFingerprint(b) <==> a == b
  {
    if SchemaFingerprint(a) == SchemaFingerprint(b) {
      var f, g := FieldSchema(ObjectT, true, a, None), FieldSchema(ObjectT, true, b, None);
      var x, y := Braced(f, Sorted(a.Keys)), Braced(g, Sorted(b.Keys));
      assert x + "" == x && y + "" == y;
      if a != map[] && b != map[] {
        BracedReadable(f, g, "", "");
      } else {
        EmptyShort(f);
        EmptyShort(g);
      }
    }
  }

  lemma EmptyShort(f: FieldSchema)
    ensures f.fields == map[] <==> |Braced(f, Sorted(f.fields.Keys))| == 2
  {
    var ks := Sorted(f.fields.Keys);
    if f.fields == map[] {
      assert f.fields.Keys == {};
    } else {
      assert ks != [] by { var k :| k in f.fields; assert k in ks; }
    }
  }

  lemma {:induction false} MembersSame(f: FieldSchema, g: FieldSchema, ks: seq<string>)
    requires f.fields == g.fields && forall k <- ks :: k in f.fields
    ensures Members(f, ks) == Members(g, ks)
  {
    if |ks| > 1 { MembersSame(f, g, ks[1..]); }
  }

  // A list of objects that have fields is fingerprinted like a list, with fields of its own, of objects that
  // have none: an element type and fields on one field cannot be told apart from nested ones.
  lemma ElementFieldsCollide(t: ValueType, required: bool, e: FieldSchema)
    requires e.elem.None? && e.fields != map[]
    ensures var a := FieldSchema(t, required, map[], Some(e));
            var b := FieldSchema(t, required, e.fields, Some(e.(fields := map[])));
            a != b && FieldFingerprint(a) == FieldFingerprint(b)
  {
    var a := FieldSchema(t, required, map[], Some(e));
    var bare := e.(fields := map[]);
    var b := FieldSchema(t, required, e.fields, Some(bare));
    var ks := Sorted(e.fields.Keys);
    MembersSame(e, b, ks);
    var braces := FIELDS + Braced(e, ks);
    var head := TypeName(e.typ) + ":";
    var flag := Flag(e.required);
    assert Tail(e) == "" + braces && "" + braces == braces;
    assert Tail(bare) == "" + "" && flag + "" == flag;
    assert FieldFingerprint(e) == head + (flag + braces);
    assert FieldFingerprint(bare) == head + flag;
    assert Tail(a) == ELEM + (head + (flag + braces)) + "";
    assert Tail(b) == ELEM + (head + flag) + braces;
    Assoc(ELEM, head + flag, braces);
    Assoc(head, flag, braces);
    assert Tail(a) == Tail(b);
  }

  lemma SortedTwo(j: string, k: string)
    requires Before(j, k) && j != k
    ensures Sorted({j, k}) == [j, k]
  {
    var s := Sorted({j, k});
    BeforeTotal(j, k);
    assert |{j, k}| == 2 && s[0] in {j, k} && s[1] in {j, k} && j in s && k in s;
  }

  lemma SortedOne(k: string)
    ensures Sorted({k}) == [k]
  {
    assert Sorted({k})[0] in {k};
  }

  // A name with a colon can imitate a member and the name of the next one.
  lemma ColonCollides(j: string, x: FieldSchema, k: string, y: FieldSchema)
    requires Before(j, k) && j != k
    ensures var a: Fields := map[j + ":" + FieldFingerprint(x) + "," + k := y];
            var b: Fields := map[j := x, k := y];
            a != b && SchemaFingerprint(a) == SchemaFingerprint(b)
  {
    var p, q := FieldFingerprint(x), FieldFingerprint(y);
    var name := j + ":" + p + "," + k;
    var a: Fields, b: Fields := map[name := y], map[j := x, k := y];
    var f, g := FieldSchema(ObjectT, true, a, None), FieldSchema(ObjectT, true, b, None);
    SortedOne(name);
    SortedTwo(j, k);
    assert a.Keys == {name} && b.Keys == {j, k} && |a.Keys| == 1 && |b.Keys| == 2;
    assert [j, k][1..] == [k] && q + "" == q;
    assert Members(f, [name]) == name + ":" + q;
    assert Members(g, [k]) == k + ":" + q;
    assert Members(g, [j, k]) == j + ":" + (p + ("," + (k + ":" + q)));
    Imitates(j, p, k, q);
  }

  lemma Imitates(j: string, p: string, k: string, q: string)
    ensures j + ":" + p + "," + k + ":" + q == j + ":" + (p + ("," + (k + ":" + q)))
  {
    Assoc(j + ":", p, ",");
    Assoc(j + ":", p + ",", k);
    Assoc(j + ":", p + "," + k, ":");
    Assoc(j + ":", p + "," + k + ":", q);
    Assoc(p, ",", k);
    Assoc(p, "," + k, ":");
    Assoc(p, "," + k + ":", q);
    Assoc(",", k, ":");
    Assoc(",", k + ":", q);
  }
}
