// The rule `f.name`, from which examples are built.
module FieldRules {
  import opened Values
  import opened Schema
  import Ast
  import opened Binder
  import B = Bound

  function Field(name: string): Ast.Expr {
    Ast.FactorRefExpr(FactorRef("f", [name]))
  }

  function BoundField(name: string, info: B.Info): B.Bound {
    B.Ref(Accessor("f", [name]), info)
  }

  lemma FieldBinds(name: string, reg: Registry)
    requires "f" in reg && name in reg["f"]
    ensures Bind(Field(name), reg) == Ok(BoundField(name, B.Info(reg["f"][name].typ, reg["f"][name])))
  {
    assert SchemaAt(reg["f"], [name]) == Ok(reg["f"][name]);
  }

  // Its value is the field's, or null if the field is missing.
  lemma FieldMeans(name: string, info: B.Info, v: Value, env: Env, m: B.RightOperand)
    requires name != VALUE && "f" in env.ctx && env.ctx["f"].Map?
    requires v == if name in env.ctx["f"].entries then env.ctx["f"].entries[name] else Null
    ensures B.EvalIn(BoundField(name, info), env, m) == Ok(v)
  {
    assert [name][1..] == [] && (name in env.ctx["f"].entries ==> Descend(v, []) == Some(v));
  }
}
