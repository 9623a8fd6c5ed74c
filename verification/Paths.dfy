// What references find, told by the chain of values along their path.
module Paths {
  import opened Values
  import opened Schema
  import opened Binder
  import opened Interpreter
  import B = Bound

  // Each value but the last is a map, whose entry under the next step of the path is the next value.
  predicate Along(vs: seq<Value>, path: seq<string>) {
    |vs| == |path| + 1 &&
    forall i | 0 <= i < |path| :: vs[i].Map? && path[i] in vs[i].entries && vs[i + 1] == vs[i].entries[path[i]]
  }

  ghost predicate Leads(v: Value, path: seq<string>, w: Value) {
    exists vs :: Along(vs, path) && vs[0] == v && vs[|path|] == w
  }

  lemma {:induction false} DescendExact(v: Value, path: seq<string>, w: Value)
    ensures Descend(v, path) == Some(w) <==> Leads(v, path, w)
    decreases |path|
  {
    if path == [] {
      assert Along([v], path);
    } else {
      if vs :| Along(vs, path) && vs[0] == v && vs[|path|] == w {
        AlongTail(vs, path);
        DescendExact(vs[1], path[1..], w);
      }
      if Descend(v, path) == Some(w) {
        DescendExact(v.entries[path[0]], path[1..], w);
        var vs :| Along(vs, path[1..]) && vs[0] == v.entries[path[0]] && vs[|path| - 1] == w;
        AlongPushed(v, vs, path);
      }
    }
  }

  lemma AlongTail(vs: seq<Value>, path: seq<string>)
    requires Along(vs, path) && path != []
    ensures Leads(vs[1], path[1..], vs[|path|])
  {
    var us := vs[1..];
    forall i | 0 <= i < |path| - 1
      ensures us[i].Map? && path[1..][i] in us[i].entries && us[i + 1] == us[i].entries[path[1..][i]]
    {
      assert us[i] == vs[i + 1] && path[1..][i] == path[i + 1];
    }
    assert Along(us, path[1..]);
  }

  lemma AlongPushed(v: Value, vs: seq<Value>, path: seq<string>)
    requires path != [] && Along(vs, path[1..]) && v.Map? && path[0] in v.entries && v.entries[path[0]] == vs[0]
    ensures Leads(v, path, vs[|path| - 1])
  {
    var us := [v] + vs;
    forall i | 0 <= i < |path| ensures us[i].Map? && path[i] in us[i].entries && us[i + 1] == us[i].entries[path[i]] {
      if i > 0 { assert us[i] == vs[i - 1] && path[i] == path[1..][i - 1]; }
    }
    assert Along(us, path);
  }

  // A reference with a path finds a value exactly if a chain along the path leads from the factor to it.
  lemma ReferenceFinds(ref: FactorRef, ctx: Context, w: Value)
    requires ref.path != []
    ensures ResolveValue(ref, ctx) == Some(w) <==> ref.code in ctx && Leads(ctx[ref.code], ref.path, w)
    ensures ReferenceValue(ref, ctx) == w <==>
            (ref.code in ctx && Leads(ctx[ref.code], ref.path, w)) ||
            (w.Null? && !(ref.code in ctx && exists u :: Leads(ctx[ref.code], ref.path, u)))
  {
    if ref.code in ctx {
      DescendExact(ctx[ref.code], ref.path, w);
      if u :| Leads(ctx[ref.code], ref.path, u) { DescendExact(ctx[ref.code], ref.path, u); }
      if Descend(ctx[ref.code], ref.path).Some? {
        DescendExact(ctx[ref.code], ref.path, Descend(ctx[ref.code], ref.path).value);
      }
    }
  }

  // Without a path it is the entry "value" of a map that has one, and the factor's value otherwise.
  lemma BareReferenceFinds(ref: FactorRef, ctx: Context, w: Value)
    requires ref.path == []
    ensures ResolveValue(ref, ctx) == Some(w) <==>
            ref.code in ctx &&
            (Leads(ctx[ref.code], ["value"], w) || (w == ctx[ref.code] && !exists u :: Leads(w, ["value"], u)))
  {
    if ref.code in ctx {
      var v := ctx[ref.code];
      forall u ensures Leads(v, ["value"], u) <==> v.Map? && "value" in v.entries && v.entries["value"] == u {
        DescendExact(v, ["value"], u);
        assert ["value"][1..] == [];
      }
      if v.Map? && "value" in v.entries { assert Leads(v, ["value"], v.entries["value"]); }
    }
  }

  // The accessor of a bound reference finds the same along the path, or along the step "value" if there is no
  // path; a leading step "value" is skipped in a factor's value that is no map.
  lemma AccessorFinds(ref: FactorRef, reg: Registry, ctx: Context, w: Value)
    requires BindFactorRef(ref, reg).Ok?
    ensures var path := if ref.path == [] then ["value"] else ref.path;
            Access(BindFactorRef(ref, reg).value.accessor, ctx) == Some(w) <==>
            ref.code in ctx &&
            if path[0] == "value" && !ctx[ref.code].Map? then w == ctx[ref.code] else Leads(ctx[ref.code], path, w)
  {
    if ref.code in ctx { DescendExact(ctx[ref.code], if ref.path == [] then ["value"] else ref.path, w); }
  }

  // Schemas

  // Each field but the last is an object, whose field under the next step is the next one.
  predicate FieldsAlong(fs: seq<FieldSchema>, path: seq<string>) {
    |fs| == |path| + 1 &&
    forall i | 0 <= i < |path| :: fs[i].typ == ObjectT && path[i] in fs[i].fields && fs[i + 1] == fs[i].fields[path[i]]
  }

  ghost predicate Declares(top: FieldSchema, path: seq<string>, f: FieldSchema) {
    exists fs :: FieldsAlong(fs, path) && fs[0] == top && fs[|path|] == f
  }

  lemma {:induction false} SchemaAtExact(top: FieldSchema, path: seq<string>, f: FieldSchema)
    requires path != [] && top.typ == ObjectT
    ensures SchemaAt(top.fields, path) == Ok(f) <==> Declares(top, path, f)
    decreases |path|
  {
    if fs :| FieldsAlong(fs, path) && fs[0] == top && fs[|path|] == f {
      FieldsAlongTail(fs, path);
      if |path| > 1 { SchemaAtExact(fs[1], path[1..], f); }
    }
    if SchemaAt(top.fields, path) == Ok(f) {
      var next := top.fields[path[0]];
      if |path| > 1 {
        SchemaAtExact(next, path[1..], f);
        var fs :| FieldsAlong(fs, path[1..]) && fs[0] == next && fs[|path| - 1] == f;
        FieldsAlongPushed(top, fs, path);
      } else {
        FieldsAlongPushed(top, [next], path);
      }
    }
  }

  lemma FieldsAlongTail(fs: seq<FieldSchema>, path: seq<string>)
    requires FieldsAlong(fs, path) && path != []
    ensures Declares(fs[1], path[1..], fs[|path|]) && (|path| > 1 ==> fs[1].typ == ObjectT)
    ensures fs[0].typ == ObjectT && path[0] in fs[0].fields && fs[1] == fs[0].fields[path[0]]
  {
    var gs := fs[1..];
    assert fs[0 + 1] == fs[1];
    forall i | 0 <= i < |path| - 1
      ensures gs[i].typ == ObjectT && path[1..][i] in gs[i].fields && gs[i + 1] == gs[i].fields[path[1..][i]]
    {
      assert gs[i] == fs[i + 1] && path[1..][i] == path[i + 1];
    }
    assert FieldsAlong(gs, path[1..]);
  }

  lemma FieldsAlongPushed(top: FieldSchema, fs: seq<FieldSchema>, path: seq<string>)
    requires path != [] && FieldsAlong(fs, path[1..])
    requires top.typ == ObjectT && path[0] in top.fields && fs[0] == top.fields[path[0]]
    ensures Declares(top, path, fs[|path| - 1])
  {
    var gs := [top] + fs;
    forall i | 0 <= i < |path|
      ensures gs[i].typ == ObjectT && path[i] in gs[i].fields && gs[i + 1] == gs[i].fields[path[i]]
    {
      if i > 0 { assert gs[i] == fs[i - 1] && path[i] == path[1..][i - 1]; }
    }
    assert FieldsAlong(gs, path);
  }

  // A reference is accepted, and with which field, exactly by what the factor declares along its path; a bare
  // reference needs a factor that declares nothing but "value".
  lemma ReferenceAccepted(ref: FactorRef, reg: Registry, f: FieldSchema)
    ensures (BindFactorRef(ref, reg).Ok? && BindFactorRef(ref, reg).value.info == B.Info(f.typ, f)) <==>
            ref.code in reg &&
            if ref.path == [] then reg[ref.code] == map["value" := f]
            else Declares(ObjectOf(reg[ref.code]), ref.path, f)
  {
    if ref.code in reg {
      var schema := reg[ref.code];
      if ref.path != [] { SchemaAtExact(ObjectOf(schema), ref.path, f); }
      if ref.path == [] && SingleValue(schema) {
        assert schema == map["value" := schema["value"]];
      }
    }
  }
}
