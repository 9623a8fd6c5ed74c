// Declared types, factor definitions, and the accessors compiled from factor references.
module Schema {
  import opened Values

  // Unset is the empty type name that an empty list or map literal gets for its elements.
  datatype ValueType =
    | StringT | IntT | LongT | BoolT | DoubleT | ObjectT | ListT | MapT | NullT | Unset

  type Fields = map<string, FieldSchema>

  datatype FieldSchema = FieldSchema(typ: ValueType, required: bool, fields: Fields, elem: Option<FieldSchema>)

  function Scalar(t: ValueType): FieldSchema {
    FieldSchema(t, true, map[], None)
  }

  // A whole factor as a field.
  function ObjectOf(schema: Fields): FieldSchema {
    FieldSchema(ObjectT, true, schema, None)
  }

  datatype FactorRef = FactorRef(code: string, path: seq<string>)

  // Of a factor definition, only the output schema matters to expressions.
  type Registry = map<string, Fields>

  const VALUE := "value"

  predicate SingleValue(schema: Fields) {
    schema.Keys == {VALUE}
  }

  // Following a path through nested object schemas, outermost segment first.
  function SchemaAt(schema: Fields, path: seq<string>): Result<FieldSchema>
    decreases |path|
  {
    if path == [] then Err(FieldNotFound)
    else if path[0] !in schema then Err(FieldNotFound)
    else if |path| == 1 then Ok(schema[path[0]])
    else if schema[path[0]].typ != ObjectT then Err(FieldNotFound)
    else SchemaAt(schema[path[0]].fields, path[1..])
  }

  // The source walks the path in a loop over the current schema.
  method ResolveSchemaPath(schema: Fields, path: seq<string>) returns (r: Result<FieldSchema>)
    ensures r == SchemaAt(schema, path)
  {
    var current := schema;
    for i := 0 to |path|
      invariant SchemaAt(schema, path) == SchemaAt(current, path[i..])
    {
      if path[i] !in current { return Err(FieldNotFound); }
      var node := current[path[i]];
      if i == |path| - 1 { return Ok(node); }
      if node.typ != ObjectT { return Err(FieldNotFound); }
      current := node.fields;
      assert path[i..][1..] == path[i + 1..];
    }
    return Err(FieldNotFound);
  }

  // A reference without a path stands for the field "value" of a factor that has no other field.
  function EffectivePath(ref: FactorRef, schema: Fields): Result<seq<string>> {
    if ref.path != [] then Ok(ref.path)
    else if SingleValue(schema) then Ok([VALUE])
    else Err(FactorRefAmbiguous)
  }

  function ResolveFactorRef(ref: FactorRef, schema: Fields): Result<FieldSchema> {
    var path :- EffectivePath(ref, schema);
    SchemaAt(schema, path)
  }

  datatype Accessor = Accessor(code: string, steps: seq<string>)

  function CompileAccessor(ref: FactorRef, schema: Fields): Result<Accessor> {
    var field :- ResolveFactorRef(ref, schema);
    var path :- EffectivePath(ref, schema);
    Ok(Accessor(ref.code, path))
  }

  // Descending through maps; a step that is missing, or into something that is no map, finds nothing.
  function Descend(v: Value, steps: seq<string>): Option<Value> {
    if steps == [] then Some(v)
    else if v.Map? && steps[0] in v.entries then Descend(v.entries[steps[0]], steps[1..])
    else None
  }

  // A leading step "value" on something that is no map ends the walk successfully there.
  function Access(a: Accessor, ctx: Context): Option<Value> {
    if a.code !in ctx then None
    else if a.steps != [] && a.steps[0] == VALUE && !ctx[a.code].Map? then Some(ctx[a.code])
    else Descend(ctx[a.code], a.steps)
  }

  method AccessorGet(a: Accessor, ctx: Context) returns (r: Option<Value>)
    ensures r == Access(a, ctx)
  {
    if a.code !in ctx { return None; }
    var current := ctx[a.code];
    for i := 0 to |a.steps|
      invariant i > 0 ==> !(a.steps[0] == VALUE && !ctx[a.code].Map?)
      invariant i == 0 ==> current == ctx[a.code]
      invariant Descend(ctx[a.code], a.steps) == Descend(current, a.steps[i..])
    {
      var step := a.steps[i];
      if i == 0 && step == VALUE {
        if !current.Map? { return Some(current); }
        if step !in current.entries { return None; }
      } else if !current.Map? || step !in current.entries {
        return None;
      }
      current := current.entries[step];
      assert a.steps[i..][1..] == a.steps[i + 1..];
    }
    return Some(current);
  }

  // A reference that finds nothing evaluates to null.
  function Loaded(a: Accessor, ctx: Context): Value {
    match Access(a, ctx)
    case Some(v) => v
    case None => Null
  }
}
