// Syntax trees as the parser builds them.
module Ast {
  import opened Values
  import opened Operators
  import opened Schema

  // Operator tokens: the binary operators and `!`. A unary minus is the operator Strict(Sub).
  datatype Operator = Binary(op: BinOp) | Bang

  const MINUS := Operator.Binary(Strict(Sub))

  datatype MapEntry = MapEntry(key: string, value: Expr)

  datatype Expr =
    | LiteralExpr(value: Value, typ: ValueType)
    | FactorRefExpr(ref: FactorRef)
    | ConditionalExpr(cond: Expr, thn: Expr, els: Expr)
    | FunctionCallExpr(name: string, args: seq<Expr>)
    | ListExpr(elements: seq<Expr>)
    | MapExpr(entries: seq<MapEntry>)
    | UnaryExpr(uop: Operator, operand: Expr)
    | BinaryExpr(op: Operator, left: Expr, right: Expr)

  function UnaryOperator(op: Operator): Option<UnOp> {
    if op.Bang? then Some(Not) else if op == MINUS then Some(Neg) else None
  }
}
