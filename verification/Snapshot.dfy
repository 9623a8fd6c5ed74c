// Snapshots of compiled expressions, as the program store keeps them.
module Snapshot {
  import opened Values
  import opened Schema
  import opened Ast
  import opened Bound
  import opened Bytecode

  // The syntax tree and the bound tree are there only until the expression has been stored and read back.
  datatype Compiled = Compiled(
    source: string, ast: Option<Expr>, bound: Option<Bound>, program: Program, resultType: ValueType)

  // One record with a field per kind of value; the kind says which field counts.
  datatype ValueSnapshot = ValueSnapshot(
    kind: string, b: bool, s: string, i: int64, l: int64, d: Float64,
    list: seq<ValueSnapshot>, mapped: map<string, ValueSnapshot>)

  datatype AccessorSnapshot = AccessorSnapshot(kind: string, code: string, steps: seq<string>)

  datatype ProgramSnapshot = ProgramSnapshot(
    instructions: seq<Instruction>, constants: seq<ValueSnapshot>, accessors: seq<AccessorSnapshot>,
    builtins: seq<string>, resultType: ValueType)

  datatype CompiledSnapshot = CompiledSnapshot(source: string, resultType: ValueType, program: ProgramSnapshot)

  const BLANK := ValueSnapshot("", false, "", 0, 0, Float64(0), [], map[])

  function SnapshotValue(v: Value): ValueSnapshot {
    match v
    case Null => BLANK.(kind := "null")
    case Bool(b) => BLANK.(kind := "bool", b := b)
    case Str(s) => BLANK.(kind := "string", s := s)
    case Int(i) => BLANK.(kind := "int", i := i)
    case Long(l) => BLANK.(kind := "int64", l := l)
    case Double(d) => BLANK.(kind := "double", d := d)
    case List(vs) => BLANK.(kind := "list", list := seq(|vs|, i requires 0 <= i < |vs| => SnapshotValue(vs[i])))
    case Map(kvs) => BLANK.(kind := "map", mapped := map k | k in kvs :: SnapshotValue(kvs[k]))
  }

  // A failure anywhere inside fails the whole restoration, with the same code whichever came first.
  function RestoreValue(x: ValueSnapshot): Result<Value>
    decreases x, 1
  {
    if x.kind == "null" then Ok(Null)
    else if x.kind == "bool" then Ok(Bool(x.b))
    else if x.kind == "string" then Ok(Str(x.s))
    else if x.kind == "int" then Ok(Int(x.i))
    else if x.kind == "int64" then Ok(Long(x.l))
    else if x.kind == "double" then Ok(Double(x.d))
    else if x.kind == "list" then
      var items :- RestoreValues(x.list);
      Ok(List(items))
    else if x.kind == "map" then
      var entries :- RestoreEntries(x);
      Ok(Map(entries))
    else Err(DefinitionInvalid)
  }

  function RestoreValues(xs: seq<ValueSnapshot>): Result<seq<Value>>
    decreases xs, 0
  {
    if xs == [] then Ok([]) else
    var vs :- RestoreValues(xs[..|xs| - 1]);
    var v :- RestoreValue(xs[|xs| - 1]);
    Ok(vs + [v])
  }

  function RestoreEntries(x: ValueSnapshot): Result<map<string, Value>>
    decreases x, 0
  {
    if forall k | k in x.mapped :: RestoreValue(x.mapped[k]).Ok? then
      Ok(map k | k in x.mapped :: RestoreValue(x.mapped[k]).value)
    else Err(DefinitionInvalid)
  }

  function SnapshotAccessor(a: Accessor): AccessorSnapshot {
    AccessorSnapshot("factor", a.code, a.steps)
  }

  function RestoreAccessor(x: AccessorSnapshot): Result<Accessor> {
    if x.kind == "factor" then Ok(Accessor(x.code, x.steps)) else Err(DefinitionInvalid)
  }

  function RestoreAccessors(xs: seq<AccessorSnapshot>): Result<seq<Accessor>> {
    if xs == [] then Ok([]) else
    var accessors :- RestoreAccessors(xs[..|xs| - 1]);
    var a :- RestoreAccessor(xs[|xs| - 1]);
    Ok(accessors + [a])
  }

  function SnapshotProgram(p: Program): ProgramSnapshot {
    ProgramSnapshot(
      p.instructions,
      seq(|p.constants|, i requires 0 <= i < |p.constants| => SnapshotValue(p.constants[i])),
      seq(|p.accessors|, i requires 0 <= i < |p.accessors| => SnapshotAccessor(p.accessors[i])),
      p.builtins, p.resultType)
  }

  function RestoreProgram(x: ProgramSnapshot): Result<Program> {
    var constants :- RestoreValues(x.constants);
    var accessors :- RestoreAccessors(x.accessors);
    Ok(Program(x.instructions, constants, accessors, x.builtins, x.resultType))
  }

  function SnapshotCompiled(c: Compiled): CompiledSnapshot {
    CompiledSnapshot(c.source, c.resultType, SnapshotProgram(c.program))
  }

  function RestoreCompiled(x: CompiledSnapshot): Result<Compiled> {
    var program :- RestoreProgram(x.program);
    Ok(Compiled(x.source, None, None, program, x.resultType))
  }

  lemma {:induction false} ValueRoundTrip(v: Value)
    ensures RestoreValue(SnapshotValue(v)) == Ok(v)
    decreases v, 1
  {
    match v
    case List(vs) =>
      ValuesRoundTrip(vs, SnapshotValue(v).list);
    case Map(kvs) =>
      EntriesRoundTrip(v, SnapshotValue(v));
    case _ =>
  }

  lemma {:induction false} ValuesRoundTrip(vs: seq<Value>, xs: seq<ValueSnapshot>)
    requires |xs| == |vs| && forall i | 0 <= i < |vs| :: xs[i] == SnapshotValue(vs[i])
    ensures RestoreValues(xs) == Ok(vs)
    decreases vs, 0
  {
    if vs != [] {
      ValuesRoundTrip(vs[..|vs| - 1], xs[..|vs| - 1]);
      ValueRoundTrip(vs[|vs| - 1]);
      assert vs[..|vs| - 1] + [vs[|vs| - 1]] == vs;
    }
  }

  lemma {:induction false} EntriesRoundTrip(v: Value, x: ValueSnapshot)
    requires v.Map? && x.mapped.Keys == v.entries.Keys
    requires forall k | k in x.mapped :: x.mapped[k] == SnapshotValue(v.entries[k])
    ensures RestoreEntries(x) == Ok(v.entries)
    decreases v, 0
  {
    forall k | k in x.mapped ensures RestoreValue(x.mapped[k]) == Ok(v.entries[k]) { ValueRoundTrip(v.entries[k]); }
    assert (map k | k in x.mapped :: RestoreValue(x.mapped[k]).value) == v.entries;
  }

  lemma {:induction false} AccessorsRoundTrip(accessors: seq<Accessor>, xs: seq<AccessorSnapshot>)
    requires |xs| == |accessors| && forall i | 0 <= i < |xs| :: xs[i] == SnapshotAccessor(accessors[i])
    ensures RestoreAccessors(xs) == Ok(accessors)
  {
    if xs != [] {
      AccessorsRoundTrip(accessors[..|xs| - 1], xs[..|xs| - 1]);
      assert accessors[..|xs| - 1] + [accessors[|xs| - 1]] == accessors;
    }
  }

  // A program read back is the program that was stored, so running it gives the same in every context.
  lemma ProgramRoundTrip(p: Program)
    ensures RestoreProgram(SnapshotProgram(p)) == Ok(p)
  {
    ValuesRoundTrip(p.constants, SnapshotProgram(p).constants);
    AccessorsRoundTrip(p.accessors, SnapshotProgram(p).accessors);
  }

  // What storing and reading back leaves of a compiled expression.
  function Stripped(c: Compiled): Compiled {
    c.(ast := None, bound := None)
  }

  lemma CompiledRoundTrip(c: Compiled)
    ensures RestoreCompiled(SnapshotCompiled(c)) == Ok(Stripped(c))
  {
    ProgramRoundTrip(c.program);
  }

  // Snapshots that nothing in this program wrote: kinds it does not know.
  predicate Known(x: ValueSnapshot) {
    match x.kind
    case "list" => forall i | 0 <= i < |x.list| :: Known(x.list[i])
    case "map" => forall k | k in x.mapped :: Known(x.mapped[k])
    case kind => kind in {"null", "bool", "string", "int", "int64", "double"}
  }

  // Restoring a value fails exactly when an unknown kind is somewhere inside it.
  lemma {:induction false} RestoreExact(x: ValueSnapshot)
    ensures RestoreValue(x).Ok? <==> Known(x)
    decreases x, 1
  {
    if x.kind == "list" {
      RestoreAllExact(x.list);
    } else if x.kind == "map" {
      forall k | k in x.mapped ensures RestoreValue(x.mapped[k]).Ok? <==> Known(x.mapped[k]) {
        RestoreExact(x.mapped[k]);
      }
    }
  }

  lemma {:induction false} RestoreAllExact(xs: seq<ValueSnapshot>)
    ensures RestoreValues(xs).Ok? <==> forall i | 0 <= i < |xs| :: Known(xs[i])
    decreases xs, 0
  {
    if xs != [] {
      RestoreAllExact(xs[..|xs| - 1]);
      RestoreExact(xs[|xs| - 1]);
    }
  }
}
