/** The subset of Python's abstract syntax tree that the translator reads.
    The tree is produced by an external parser (`ast.parse`); here it is an
    input value. Node kinds the translator has no handler for are kept as
    explicit constructors so that the fallback arm of `translate` is reachable. */
module Ast {

  import opened Results

  /** The value of an `ast.Constant` node. Floating-point and complex
      constants are not modelled; `bytes` values carry the text Python's
      `str()` would give them. */
  datatype Const =
    | CNone
    | CEllipsis
    | CStr(s: string)
    | CBool(b: bool)
    | CInt(i: int)
    | CBytes(text: string)

  /** Arithmetic operators. `OtherBinOp` stands for `MatMult`, `LShift`,
      `RShift`, `BitOr`, `BitXor` and `BitAnd`, which have no handler. */
  datatype BinOperator = Add | Sub | Mult | Div | FloorDiv | Mod | Pow | OtherBinOp

  /** Unary operators. `OtherUnaryOp` stands for `USub`, `UAdd` and `Invert`. */
  datatype UnaryOperator = Not | OtherUnaryOp

  datatype BoolOperator = And | Or

  /** Comparison operators. `OtherCmpOp` stands for `Is`, `IsNot`, `In`, `NotIn`. */
  datatype CmpOperator = Eq | NotEq | Lt | LtE | Gt | GtE | OtherCmpOp

  /** One `op comparator` pair of an `ast.Compare`; the parser always gives
      `ops` and `comparators` the same length, so they are paired here. */
  datatype Comparison = Comparison(op: CmpOperator, comparator: Expr)

  /** A keyword argument `arg=value` of a call (`arg` is absent for `**value`). */
  datatype Keyword = Keyword(arg: Option<string>, value: Expr)

  datatype Expr =
    | Constant(value: Const)
    | FormattedValue(inner: Expr, conversion: int, hasFormatSpec: bool)
    | JoinedStr(values: seq<Expr>)
    | List(elts: seq<Expr>)
    | Tuple(elts: seq<Expr>)
    | Name(id: string)
    | UnaryOp(uop: UnaryOperator, operand: Expr)
    | BinOp(left: Expr, op: BinOperator, right: Expr)
    | BoolOp(bop: BoolOperator, operands: seq<Expr>)
    | Compare(first: Expr, comparisons: seq<Comparison>)
    | Call(func: Expr, args: seq<Expr>, keywords: seq<Keyword>)
    | Starred(starred: Expr)
    | IfExp(test: Expr, body: Expr, orelse: Expr)
    | Attribute(receiver: Expr, attr: string)
    | Subscript(container: Expr, slice: Expr)
    | Slice(lower: Option<Expr>, upper: Option<Expr>, step: Option<Expr>)
    | Dict(keys: seq<Option<Expr>>, dictValues: seq<Expr>)
    /** Lambda, comprehensions, `await`, `yield`, `NamedExpr`, `Set`, ... */
    | OtherExpr

  /** The parameters of a function definition, as `ast.arguments` holds them
      (only the counts of `defaults` matter, and `kw_defaults` is implied by
      `kwonlyargs`). */
  datatype Arguments = Arguments(
    posonlyargs: seq<string>,
    args: seq<string>,
    vararg: Option<string>,
    kwonlyargs: seq<string>,
    kwarg: Option<string>,
    defaults: seq<Expr>)

  datatype Stmt =
    | ExprStmt(value: Expr)
    | Assign(targets: seq<Expr>, rhs: Expr)
    | AnnAssign(target: Expr, annotation: Expr, annValue: Option<Expr>)
    | AugAssign(augTarget: Expr, augOp: BinOperator, augValue: Expr)
    | Delete(delTargets: seq<Expr>)
    | Pass
    | If(ifTest: Expr, ifBody: seq<Stmt>, ifElse: seq<Stmt>)
    | For(forTarget: Expr, iter: Expr, forBody: seq<Stmt>, forElse: seq<Stmt>)
    | While(whileTest: Expr, whileBody: seq<Stmt>, whileElse: seq<Stmt>)
    | Break
    | Continue
    /** `def` when `isAsync` is false, `async def` when it is true. */
    | FunctionDef(name: string, params: Arguments, defBody: seq<Stmt>, decorators: seq<Expr>, isAsync: bool)
    | Return(returned: Option<Expr>)
    /** ClassDef, Try, With, Import, Global, AsyncFor, Raise, Assert, Match, ... */
    | OtherStmt

  datatype Module = Module(body: seq<Stmt>)
}
