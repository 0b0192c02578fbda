/** The value objects that a values map holds: literals, columns and SQL function calls. */
module Syntax {

  datatype Option<+T> = None | Some(value: T)

  /** A reference to a column: its name and the name of its owning table, if the query has one. */
  datatype Column = Column(name: string, table: Option<string>)

  /** A scalar that the renderer binds to a placeholder. */
  datatype Literal = IntLit(i: int) | StrLit(s: string) | BoolLit(b: bool)

  /** An SQL call `NAME(arg)`, written inline and never bound to a placeholder. */
  datatype SqlFunction = SqlFunction(name: string, arg: FunctionArg)

  /** The argument of a call: a column, a literal, or another call (calls nest). */
  datatype FunctionArg =
    | ColumnArg(column: Column)
    | LiteralArg(lit: Literal)
    | CallArg(call: SqlFunction)

  /** What a values map holds for one column. */
  datatype Value = Null | Lit(lit: Literal) | Func(call: SqlFunction)

  /** The call `VALUES(col)`: "the value this INSERT would have written into col". */
  function ValuesCall(column: Column): (call: SqlFunction)
  {
    SqlFunction("VALUES", ColumnArg(column))
  }

  predicate NotNull(v: Value)
  {
    !v.Null?
  }

  predicate NotFunction(v: Value)
  {
    !v.Func?
  }

  predicate IsLiteral(v: Value)
  {
    v.Lit?
  }
}
