// Resolving thrift structs: every struct's fields with the structs they refer to expanded in place.
module Thrift {
  import opened Values
  import opened Schema

  datatype RawField = Malformed | RawField(name: string, required: bool, typeName: string)

  // The struct bodies, split into fields.
  type Raw = map<string, seq<RawField>>

  datatype Descriptor = Descriptor(typ: ValueType, required: bool, fields: Descriptors)

  type Descriptors = map<string, Descriptor>

  function ScalarType(typeName: string): Option<ValueType> {
    match typeName
    case "string" => Some(StringT)
    case "i32" => Some(IntT)
    case "i64" => Some(LongT)
    case "bool" => Some(BoolT)
    case "double" => Some(DoubleT)
    case _ => None
  }

  function Clone(d: Descriptor): (c: Descriptor)
    decreases d
  {
    Descriptor(d.typ, d.required, map k | k in d.fields :: Clone(d.fields[k]))
  }

  function CloneAll(ds: Descriptors): Descriptors {
    map k | k in ds :: Clone(ds[k])
  }

  lemma {:induction false} CloneSame(d: Descriptor)
    ensures Clone(d) == d
    decreases d
  {
    forall k | k in d.fields ensures Clone(d.fields[k]) == d.fields[k] { CloneSame(d.fields[k]); }
    assert Clone(d).fields == d.fields;
  }

  lemma CloneAllSame(ds: Descriptors)
    ensures CloneAll(ds) == ds
  {
    forall k | k in ds ensures Clone(ds[k]) == ds[k] { CloneSame(ds[k]); }
  }

  function ParseField(f: RawField, structs: map<string, Descriptors>): Option<Descriptor> {
    if f.Malformed? then None else
    match ScalarType(f.typeName)
    case Some(t) => Some(Descriptor(t, f.required, map[]))
    case None =>
      if f.typeName in structs then Some(Descriptor(ObjectT, f.required, CloneAll(structs[f.typeName]))) else None
  }

  // A struct's fields against the structs known so far; a later field of the same name wins.
  function ParseFields(fs: seq<RawField>, structs: map<string, Descriptors>): Option<Descriptors> {
    if fs == [] then Some(map[]) else
    var f := fs[|fs| - 1];
    match ParseFields(fs[..|fs| - 1], structs)
    case None => None
    case Some(ds) =>
      match ParseField(f, structs)
      case None => None
      case Some(d) => Some(ds[f.name := d])
  }

  function Refs(fs: seq<RawField>): set<string> {
    set i | 0 <= i < |fs| && fs[i].RawField? && ScalarType(fs[i].typeName).None? :: fs[i].typeName
  }

  predicate WellFormed(fs: seq<RawField>) {
    forall i | 0 <= i < |fs| :: fs[i].RawField?
  }

  // The full expansion of a struct, in which no struct from `above` may occur again.
  function Expand(raw: Raw, name: string, above: set<string>): Option<Descriptors>
    decreases |raw.Keys - above|
  {
    if name in above || name !in raw then None
    else
      assert raw.Keys - (above + {name}) == raw.Keys - above - {name};
      ParseFields(raw[name], map m | m in Refs(raw[name]) && Expand(raw, m, above + {name}).Some? ::
                               Expand(raw, m, above + {name}).value)
  }

  predicate Expandable(raw: Raw, name: string, above: set<string>) {
    Expand(raw, name, above).Some?
  }

  lemma {:induction false} ParseFieldsExact(fs: seq<RawField>, structs: map<string, Descriptors>)
    ensures ParseFields(fs, structs).Some? <==> WellFormed(fs) && Refs(fs) <= structs.Keys
  {
    if fs != [] {
      ParseFieldsExact(fs[..|fs| - 1], structs);
      var f := fs[|fs| - 1];
      assert Refs(fs) == Refs(fs[..|fs| - 1]) +
        (if f.RawField? && ScalarType(f.typeName).None? then {f.typeName} else {});
    }
  }

  lemma {:induction false} ParseFieldsLocal(fs: seq<RawField>, a: map<string, Descriptors>, b: map<string, Descriptors>)
    requires forall m | m in Refs(fs) :: (m in a <==> m in b) && (m in a ==> a[m] == b[m])
    ensures ParseFields(fs, a) == ParseFields(fs, b)
  {
    if fs != [] {
      assert Refs(fs[..|fs| - 1]) <= Refs(fs);
      ParseFieldsLocal(fs[..|fs| - 1], a, b);
      var f := fs[|fs| - 1];
      assert f.RawField? && ScalarType(f.typeName).None? ==> f.typeName in Refs(fs);
    }
  }

  // The expansions that a struct's own expansion is made of.
  function Parts(raw: Raw, name: string, above: set<string>): map<string, Descriptors>
    requires name in raw
  {
    map m | m in Refs(raw[name]) && Expandable(raw, m, above + {name}) :: Expand(raw, m, above + {name}).value
  }

  lemma ExpandParts(raw: Raw, name: string, above: set<string>)
    requires name !in above && name in raw
    ensures Expand(raw, name, above) == ParseFields(raw[name], Parts(raw, name, above))
  {
    ParseFieldsLocal(raw[name], Parts(raw, name, above),
      map m | m in Refs(raw[name]) && Expand(raw, m, above + {name}).Some? :: Expand(raw, m, above + {name}).value);
  }

  lemma ExpandExact(raw: Raw, name: string, above: set<string>)
    ensures Expandable(raw, name, above) <==>
            name !in above && name in raw && WellFormed(raw[name]) &&
            forall m <- Refs(raw[name]) :: Expandable(raw, m, above + {name})
    ensures name !in above && name in raw ==>
            Expand(raw, name, above) == ParseFields(raw[name], Parts(raw, name, above))
  {
    if name !in above && name in raw {
      var parts := Parts(raw, name, above);
      ExpandParts(raw, name, above);
      ParseFieldsExact(raw[name], parts);
      assert forall m <- Refs(raw[name]) :: m in parts <==> Expandable(raw, m, above + {name});
    }
  }

  lemma Shrinks(raw: Raw, name: string, above: set<string>)
    requires name in raw && name !in above
    ensures |raw.Keys - (above + {name})| < |raw.Keys - above|
  {
    assert raw.Keys - (above + {name}) == raw.Keys - above - {name};
  }

  // A struct has one expansion, whatever it was reached from.
  lemma {:induction false} ExpandUnique(raw: Raw, name: string, above: set<string>, other: set<string>)
    requires Expandable(raw, name, above) && Expandable(raw, name, other)
    ensures Expand(raw, name, above) == Expand(raw, name, other)
    decreases |raw.Keys - above|
  {
    ExpandExact(raw, name, above);
    ExpandExact(raw, name, other);
    Shrinks(raw, name, above);
    forall m | m in Refs(raw[name]) ensures Parts(raw, name, above)[m] == Parts(raw, name, other)[m] {
      ExpandUnique(raw, m, above + {name}, other + {name});
    }
    ParseFieldsLocal(raw[name], Parts(raw, name, above), Parts(raw, name, other));
  }

  lemma {:induction false} ExpandFewer(raw: Raw, name: string, above: set<string>, fewer: set<string>)
    requires Expandable(raw, name, above) && fewer <= above
    ensures Expandable(raw, name, fewer)
    decreases |raw.Keys - above|
  {
    ExpandExact(raw, name, above);
    Shrinks(raw, name, above);
    forall m | m in Refs(raw[name]) ensures Expandable(raw, m, fewer + {name}) {
      ExpandFewer(raw, m, above + {name}, fewer + {name});
    }
    ExpandExact(raw, name, fewer);
  }

  // Structs that are resolved: with their expansions, and with everything they refer to.
  ghost predicate Resolved(raw: Raw, structs: map<string, Descriptors>) {
    forall s | s in structs ::
      s in raw && Refs(raw[s]) <= structs.Keys && Expand(raw, s, {}) == Some(structs[s])
  }

  lemma {:induction false} ResolvedAnywhere(raw: Raw, structs: map<string, Descriptors>, name: string,
                                            above: set<string>, more: set<string>)
    requires Resolved(raw, structs) && name in structs && Expandable(raw, name, above) && structs.Keys !! more
    ensures Expandable(raw, name, above + more)
    decreases |raw.Keys - above|
  {
    ExpandExact(raw, name, above);
    Shrinks(raw, name, above);
    forall m | m in Refs(raw[name]) ensures Expandable(raw, m, above + more + {name}) {
      ResolvedAnywhere(raw, structs, m, above + {name}, more);
      assert above + {name} + more == above + more + {name};
    }
    ExpandExact(raw, name, above + more);
  }

  lemma ResolvedExpands(raw: Raw, structs: map<string, Descriptors>, name: string, visiting: set<string>)
    requires Resolved(raw, structs) && name in structs && structs.Keys !! visiting
    ensures Expand(raw, name, visiting) == Some(structs[name])
  {
    ResolvedAnywhere(raw, structs, name, {}, visiting);
    assert {} + visiting == visiting;
    ExpandUnique(raw, name, {}, visiting);
  }

  // The expansions of those structs that have one.
  function ExpansionsOf(raw: Raw, names: set<string>, above: set<string>): map<string, Descriptors> {
    map n | n in names && Expandable(raw, n, above) :: Expand(raw, n, above).value
  }

  function Expansions(raw: Raw, above: set<string>): map<string, Descriptors> {
    ExpansionsOf(raw, raw.Keys, above)
  }

  lemma OneMore(raw: Raw, names: set<string>, n: string, above: set<string>)
    requires n !in names
    ensures ExpansionsOf(raw, names + {n}, above) ==
            match Expand(raw, n, above)
            case Some(ds) => ExpansionsOf(raw, names, above)[n := ds]
            case None => ExpansionsOf(raw, names, above)
  {
  }

  lemma ExpandFromAll(raw: Raw, name: string, above: set<string>)
    requires name in raw && name !in above
    ensures Expand(raw, name, above) == ParseFields(raw[name], Expansions(raw, above + {name}))
  {
    ExpandExact(raw, name, above);
    forall m | m in Refs(raw[name]) ensures m in Expansions(raw, above + {name}) <==> m in Parts(raw, name, above) {
      ExpandExact(raw, m, above + {name});
    }
    ParseFieldsLocal(raw[name], Expansions(raw, above + {name}), Parts(raw, name, above));
  }

  lemma ResolvedAll(raw: Raw, structs: map<string, Descriptors>)
    requires Resolved(raw, structs) && raw.Keys <= structs.Keys
    ensures structs == Expansions(raw, {}) && structs.Keys == raw.Keys && forall n <- raw :: Expandable(raw, n, {})
  {
    forall n | n in raw ensures Expand(raw, n, {}) == Some(structs[n]) {}
    assert structs.Keys == raw.Keys;
  }

  class StructResolver {
    const raw: Raw
    var structs: map<string, Descriptors>
    var visiting: set<string>

    ghost predicate Valid()
      reads this
    {
      Resolved(raw, structs) && structs.Keys !! visiting
    }

    constructor (raw: Raw)
      ensures Valid() && this.raw == raw && structs == map[] && visiting == {}
    {
      this.raw := raw;
      structs, visiting := map[], {};
    }

    method ParseThriftFields(fs: seq<RawField>, known: map<string, Descriptors>) returns (r: Option<Descriptors>)
      ensures r == ParseFields(fs, known)
    {
      var ds: Descriptors := map[];
      for i := 0 to |fs|
        invariant ParseFields(fs[..i], known) == Some(ds)
      {
        assert fs[..i + 1][..i] == fs[..i];
        var d := ParseField(fs[i], known);
        if d.None? {
          ParseFieldsExact(fs, known);
          ParseFieldsExact(fs[..i + 1], known);
          assert Refs(fs[..i + 1]) <= Refs(fs);
          return None;
        }
        ds := ds[fs[i].name := d.value];
      }
      assert fs[..|fs|] == fs;
      return Some(ds);
    }

    // A struct's expansion, or an error if it refers to itself, to a struct above it, or to nothing known.
    method BuildStructDescriptor(name: string) returns (r: Option<Descriptors>)
      requires Valid()
      modifies this
      ensures Valid() && visiting == old(visiting) && old(structs).Keys <= structs.Keys
      ensures r == Expand(raw, name, visiting) && (r.Some? ==> name in structs)
      decreases |raw.Keys - visiting|, 0
    {
      if name in structs {
        ResolvedExpands(raw, structs, name, visiting);
        return Some(structs[name]);
      }
      if name in visiting || name !in raw { return None; }
      ExpandFromAll(raw, name, visiting);
      Shrinks(raw, name, visiting);
      visiting := visiting + {name};
      var known := LazyStructs();
      var fields := ParseThriftFields(raw[name], known);
      visiting := visiting - {name};
      assert visiting == old(visiting);
      if fields.None? { return None; }
      ParseFieldsExact(raw[name], known);
      ExpandFewer(raw, name, visiting, {});
      ExpandUnique(raw, name, visiting, {});
      structs := structs[name := fields.value];
      return fields;
    }

    // One turn of the loop below.
    method Collect(name: string, known: map<string, Descriptors>,
                   ghost done: set<string>) returns (more: map<string, Descriptors>)
      requires Valid() && known == ExpansionsOf(raw, done, visiting) && known.Keys <= structs.Keys && name !in done
      modifies this
      ensures Valid() && visiting == old(visiting) && old(structs).Keys <= structs.Keys
      ensures more == ExpansionsOf(raw, done + {name}, visiting) && more.Keys <= structs.Keys
      decreases |raw.Keys - visiting|, 1
    {
      OneMore(raw, done, name, visiting);
      if name in structs {
        ResolvedExpands(raw, structs, name, visiting);
        return known[name := structs[name]];
      }
      var fields := BuildStructDescriptor(name);
      return if fields.Some? then known[name := fields.value] else known;
    }

    // Tries every struct, in any order; errors are swallowed.
    method LazyStructs() returns (known: map<string, Descriptors>)
      requires Valid()
      modifies this
      ensures Valid() && visiting == old(visiting) && old(structs).Keys <= structs.Keys
      ensures known == Expansions(raw, visiting) && known.Keys <= structs.Keys
      decreases |raw.Keys - visiting|, 2
    {
      known := map[];
      var rest := raw.Keys;
      ghost var done: set<string> := {};
      while rest != {}
        invariant Valid() && visiting == old(visiting) && old(structs).Keys <= structs.Keys
        invariant rest + done == raw.Keys && rest !! done
        invariant known == ExpansionsOf(raw, done, visiting) && known.Keys <= structs.Keys
        decreases |rest|
      {
        var name :| name in rest;
        known := Collect(name, known, done);
        rest, done := rest - {name}, done + {name};
      }
    }

    // All structs, or an error if one of them has no expansion.
    method ParseThriftStructs() returns (r: Option<map<string, Descriptors>>)
      requires Valid() && structs == map[] && visiting == {}
      modifies this
      ensures r.Some? <==> forall n <- raw :: Expandable(raw, n, {})
      ensures r.Some? ==> r.value == Expansions(raw, {}) && r.value.Keys == raw.Keys
    {
      var rest := raw.Keys;
      while rest != {}
        invariant Valid() && visiting == {} && rest <= raw.Keys <= structs.Keys + rest
        decreases |rest|
      {
        var name :| name in rest;
        var fields := BuildStructDescriptor(name);
        if fields.None? { return None; }
        rest := rest - {name};
      }
      ResolvedAll(raw, structs);
      return Some(structs);
    }
  }

  // References as a graph

  // A walk along references, every struct on it but the last being defined.
  ghost predicate Walk(raw: Raw, p: seq<string>) {
    p != [] && forall i | 0 <= i < |p| - 1 :: p[i] in raw && p[i + 1] in Refs(raw[p[i]])
  }

  ghost predicate Closed(raw: Raw) {
    forall n <- raw :: WellFormed(raw[n]) && Refs(raw[n]) <= raw.Keys
  }

  ghost predicate Acyclic(raw: Raw) {
    forall p: seq<string> | Walk(raw, p) && |p| > 1 :: p[0] != p[|p| - 1]
  }

  function Met(p: seq<string>): set<string> {
    set n | n in p
  }

  // Along a walk from an expandable struct nothing is met twice and everything is defined.
  lemma {:induction false} ExpandableWalk(raw: Raw, p: seq<string>, k: nat)
    requires Walk(raw, p) && Expandable(raw, p[0], {}) && k < |p|
    ensures Expandable(raw, p[k], Met(p[..k]))
  {
    if k == 0 {
      assert p[..0] == [] && Met([]) == {};
    } else {
      ExpandableWalk(raw, p, k - 1);
      ExpandExact(raw, p[k - 1], Met(p[..k - 1]));
      assert p[..k] == p[..k - 1] + [p[k - 1]] && Met(p[..k]) == Met(p[..k - 1]) + {p[k - 1]};
    }
  }

  // What a struct that cannot be expanded leads to.
  ghost predicate DeadEnd(raw: Raw, n: string) {
    n !in raw || !WellFormed(raw[n])
  }

  // A walk that cannot be expanded: it ends nowhere, or at a struct it has met or that was above it.
  ghost predicate Stuck(raw: Raw, p: seq<string>, above: set<string>) {
    p != [] && (DeadEnd(raw, p[|p| - 1]) || p[|p| - 1] in above || p[|p| - 1] in p[..|p| - 1])
  }

  lemma {:induction false} StuckWalk(raw: Raw, name: string, above: set<string>) returns (p: seq<string>)
    requires !Expandable(raw, name, above)
    ensures Walk(raw, p) && p[0] == name && Stuck(raw, p, above)
    decreases |raw.Keys - above|
  {
    ExpandExact(raw, name, above);
    if name in above || DeadEnd(raw, name) {
      p := [name];
    } else {
      var m :| m in Refs(raw[name]) && !Expandable(raw, m, above + {name});
      Shrinks(raw, name, above);
      var q := StuckWalk(raw, m, above + {name});
      p := [name] + q;
      WalkExtends(raw, name, q);
      assert p[..|p| - 1] == [name] + q[..|q| - 1];
    }
  }

  lemma WalkExtends(raw: Raw, name: string, q: seq<string>)
    requires Walk(raw, q) && name in raw && q[0] in Refs(raw[name])
    ensures Walk(raw, [name] + q)
  {
    var p := [name] + q;
    forall i | 0 <= i < |p| - 1 ensures p[i] in raw && p[i + 1] in Refs(raw[p[i]]) {
      assert p[i + 1] == q[i] && (i > 0 ==> p[i] == q[i - 1]);
    }
  }

  // All structs can be resolved exactly if every reference is to a defined struct and there are no cycles.
  lemma ResolvableExact(raw: Raw)
    ensures (forall n <- raw :: Expandable(raw, n, {})) <==> Closed(raw) && Acyclic(raw)
  {
    if forall n <- raw :: Expandable(raw, n, {}) {
      forall n | n in raw ensures WellFormed(raw[n]) && Refs(raw[n]) <= raw.Keys {
        ExpandExact(raw, n, {});
        forall m | m in Refs(raw[n]) ensures m in raw { ExpandExact(raw, m, {} + {n}); }
      }
      forall p: seq<string> | Walk(raw, p) && |p| > 1 ensures p[0] != p[|p| - 1] {
        assert p[0] in raw;
        ExpandableWalk(raw, p, |p| - 1);
        ExpandExact(raw, p[|p| - 1], Met(p[..|p| - 1]));
        assert p[..|p| - 1][0] == p[0];
      }
    } else {
      var n: string :| n in raw && !Expandable(raw, n, {});
      var p := StuckWalk(raw, n, {});
      if Closed(raw) {
        assert |p| > 1 ==> p[|p| - 1] in Refs(raw[p[|p| - 2]]);
        var i: nat :| i < |p| - 1 && p[..|p| - 1][i] == p[|p| - 1];
        assert Walk(raw, p[i..]);
        assert p[i..][0] == p[i..][|p[i..]| - 1];
      }
    }
  }

  // A table in which every struct is what its fields say, given the same table.
  ghost predicate Solves(raw: Raw, structs: map<string, Descriptors>) {
    structs.Keys == raw.Keys && forall n <- raw :: ParseFields(raw[n], structs) == Some(structs[n])
  }

  lemma {:induction false} SolutionExpands(raw: Raw, structs: map<string, Descriptors>, name: string,
                                           above: set<string>)
    requires Solves(raw, structs) && Expandable(raw, name, above)
    ensures Expand(raw, name, above) == Some(structs[name])
    decreases |raw.Keys - above|
  {
    ExpandExact(raw, name, above);
    Shrinks(raw, name, above);
    forall m | m in Refs(raw[name]) ensures Parts(raw, name, above)[m] == structs[m] && m in structs {
      SolutionExpands(raw, structs, m, above + {name});
      ExpandExact(raw, m, above + {name});
    }
    ParseFieldsLocal(raw[name], Parts(raw, name, above), structs);
  }

  // Where the driver succeeds, its table is the only one in which every struct is what its fields say; so
  // the order in which it met the structs, and the errors swallowed on the way, leave no trace.
  lemma ResolutionUnique(raw: Raw, structs: map<string, Descriptors>)
    requires Closed(raw) && Acyclic(raw)
    ensures structs == Expansions(raw, {}) <==> Solves(raw, structs)
  {
    ResolvableExact(raw);
    if Solves(raw, structs) {
      forall n | n in raw ensures Expand(raw, n, {}) == Some(structs[n]) { SolutionExpands(raw, structs, n, {}); }
    } else {
      var all := Expansions(raw, {});
      forall n | n in raw ensures ParseFields(raw[n], all) == Some(all[n]) {
        ExpandExact(raw, n, {});
        forall m | m in Refs(raw[n]) ensures m in all && all[m] == Parts(raw, n, {})[m] {
          ExpandUnique(raw, m, {}, {} + {n});
        }
        ParseFieldsLocal(raw[n], all, Parts(raw, n, {}));
      }
    }
  }

  // The field table of a struct, told without the way it is built.

  const SCALARS: map<string, ValueType> :=
    map["string" := StringT, "i32" := IntT, "i64" := LongT, "bool" := BoolT, "double" := DoubleT]

  predicate Known(f: RawField, structs: map<string, Descriptors>) {
    f.RawField? && (f.typeName in SCALARS || f.typeName in structs)
  }

  function Described(f: RawField, structs: map<string, Descriptors>): Descriptor
    requires Known(f, structs)
  {
    if f.typeName in SCALARS then Descriptor(SCALARS[f.typeName], f.required, map[])
    else Descriptor(ObjectT, f.required, structs[f.typeName])
  }

  predicate LastNamed(fs: seq<RawField>, i: nat)
    requires i < |fs| && fs[i].RawField?
  {
    forall j | i < j < |fs| && fs[j].RawField? :: fs[j].name != fs[i].name
  }

  // Every field is of a known type; the table has the fields' names, and under each of them what the last
  // field of that name declares.
  ghost predicate Tabulates(fs: seq<RawField>, structs: map<string, Descriptors>, ds: Descriptors) {
    (forall f <- fs :: Known(f, structs)) &&
    (forall i | 0 <= i < |fs| :: fs[i].RawField? && fs[i].name in ds) &&
    (forall k | k in ds :: exists i | 0 <= i < |fs| && fs[i].RawField? :: fs[i].name == k) &&
    (forall i | 0 <= i < |fs| && Known(fs[i], structs) && LastNamed(fs, i) ::
       ds[fs[i].name] == Described(fs[i], structs))
  }

  lemma FieldDescribed(f: RawField, structs: map<string, Descriptors>)
    ensures ParseField(f, structs) == if Known(f, structs) then Some(Described(f, structs)) else None
  {
    if f.RawField? && f.typeName in structs { CloneAllSame(structs[f.typeName]); }
  }

  lemma {:induction false} FieldsTabulated(fs: seq<RawField>, structs: map<string, Descriptors>)
    ensures ParseFields(fs, structs).Some? <==> forall f <- fs :: Known(f, structs)
    ensures ParseFields(fs, structs).Some? ==> Tabulates(fs, structs, ParseFields(fs, structs).value)
  {
    if fs != [] {
      var init, f := fs[..|fs| - 1], fs[|fs| - 1];
      FieldsTabulated(init, structs);
      FieldDescribed(f, structs);
      assert fs == init + [f];
      if ParseFields(fs, structs).Some? { TabulatesNext(init, f, structs, ParseFields(init, structs).value); }
    }
  }

  lemma TabulatesNext(init: seq<RawField>, f: RawField, structs: map<string, Descriptors>, ds: Descriptors)
    requires Tabulates(init, structs, ds) && Known(f, structs)
    ensures Tabulates(init + [f], structs, ds[f.name := Described(f, structs)])
  {
    var fs := init + [f];
    assert fs[|init|] == f && forall i | 0 <= i < |init| :: fs[i] == init[i];
    forall g <- fs ensures Known(g, structs) { assert g in init || g == f; }
    NamesNext(init, f, structs, ds);
    LastNext(init, f, structs, ds);
  }

  lemma NamesNext(init: seq<RawField>, f: RawField, structs: map<string, Descriptors>, ds: Descriptors)
    requires Tabulates(init, structs, ds) && Known(f, structs)
    ensures var fs, es := init + [f], ds[f.name := Described(f, structs)];
            (forall i | 0 <= i < |fs| :: fs[i].RawField? && fs[i].name in es) &&
            (forall k | k in es :: exists i | 0 <= i < |fs| && fs[i].RawField? :: fs[i].name == k)
  {
    var fs, es := init + [f], ds[f.name := Described(f, structs)];
    assert fs[|init|] == f && forall i | 0 <= i < |init| :: fs[i] == init[i];
    forall k | k in es ensures exists i | 0 <= i < |fs| && fs[i].RawField? :: fs[i].name == k {
      if k != f.name {
        var i :| 0 <= i < |init| && init[i].RawField? && init[i].name == k;
        assert fs[i] == init[i];
      }
    }
  }

  lemma LastNext(init: seq<RawField>, f: RawField, structs: map<string, Descriptors>, ds: Descriptors)
    requires Tabulates(init, structs, ds) && Known(f, structs)
    ensures var fs, es := init + [f], ds[f.name := Described(f, structs)];
            forall i | 0 <= i < |fs| && Known(fs[i], structs) && LastNamed(fs, i) ::
              fs[i].name in es && es[fs[i].name] == Described(fs[i], structs)
  {
    var fs, es := init + [f], ds[f.name := Described(f, structs)];
    forall i | 0 <= i < |fs| && Known(fs[i], structs) && LastNamed(fs, i)
      ensures fs[i].name in es && es[fs[i].name] == Described(fs[i], structs)
    {
      if i < |init| { LastBefore(init, f, i); }
    }
  }

  lemma LastBefore(init: seq<RawField>, f: RawField, i: nat)
    requires i < |init| && f.RawField? && (init + [f])[i].RawField? && LastNamed(init + [f], i)
    ensures (init + [f])[i] == init[i] && LastNamed(init, i) && init[i].name != f.name
  {
    var fs := init + [f];
    assert fs[|init|] == f;
    forall j | i < j < |init| && init[j].RawField? ensures init[j].name != init[i].name { assert fs[j] == init[j]; }
  }

  // There is only one such table.
  lemma TableUnique(fs: seq<RawField>, structs: map<string, Descriptors>, a: Descriptors, b: Descriptors)
    requires Tabulates(fs, structs, a) && Tabulates(fs, structs, b)
    ensures a == b
  {
    TablePart(fs, structs, a, b);
    TablePart(fs, structs, b, a);
  }

  lemma TablePart(fs: seq<RawField>, structs: map<string, Descriptors>, a: Descriptors, b: Descriptors)
    requires Tabulates(fs, structs, a) && Tabulates(fs, structs, b)
    ensures forall k | k in a :: k in b && a[k] == b[k]
  {
    forall k | k in a ensures k in b && a[k] == b[k] { TableEntry(fs, structs, a, b, k); }
  }

  lemma TableEntry(fs: seq<RawField>, structs: map<string, Descriptors>, a: Descriptors, b: Descriptors, k: string)
    requires Tabulates(fs, structs, a) && Tabulates(fs, structs, b) && k in a
    ensures k in b && a[k] == b[k]
  {
    var l := EntryFrom(fs, structs, a, k);
    EntryAt(fs, structs, b, l);
  }

  lemma EntryFrom(fs: seq<RawField>, structs: map<string, Descriptors>, ds: Descriptors, k: string) returns (l: nat)
    requires Tabulates(fs, structs, ds) && k in ds
    ensures l < |fs| && Known(fs[l], structs) && LastNamed(fs, l) && fs[l].name == k &&
            ds[k] == Described(fs[l], structs)
  {
    var i :| 0 <= i < |fs| && fs[i].RawField? && fs[i].name == k;
    l := LastOf(fs, i, k);
    assert fs[l] in fs;
  }

  lemma EntryAt(fs: seq<RawField>, structs: map<string, Descriptors>, ds: Descriptors, l: nat)
    requires Tabulates(fs, structs, ds) && l < |fs| && Known(fs[l], structs) && LastNamed(fs, l)
    ensures fs[l].name in ds && ds[fs[l].name] == Described(fs[l], structs)
  {
  }

  lemma LastOf(fs: seq<RawField>, i: nat, k: string) returns (l: nat)
    requires i < |fs| && fs[i].RawField? && fs[i].name == k
    ensures l < |fs| && fs[l].RawField? && fs[l].name == k && LastNamed(fs, l)
    decreases |fs| - i
  {
    if j :| i < j < |fs| && fs[j].RawField? && fs[j].name == k { l := LastOf(fs, j, k); } else { l := i; }
  }

  // So the result of resolving is the only table whose structs are what their fields declare.
  lemma SolvesExact(raw: Raw, structs: map<string, Descriptors>)
    ensures Solves(raw, structs) <==>
            structs.Keys == raw.Keys && forall n <- raw :: n in structs && Tabulates(raw[n], structs, structs[n])
  {
    forall n | n in raw && n in structs
      ensures ParseFields(raw[n], structs) == Some(structs[n]) <==> Tabulates(raw[n], structs, structs[n])
    {
      FieldsTabulated(raw[n], structs);
      if Tabulates(raw[n], structs, structs[n]) && ParseFields(raw[n], structs).Some? {
        TableUnique(raw[n], structs, structs[n], ParseFields(raw[n], structs).value);
      }
    }
  }
}
