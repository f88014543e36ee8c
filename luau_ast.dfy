/** The part of the Luau parser's output that the analysis reads: statements,
    expressions, type annotations, locals and comment tokens. The parser itself
    is not modelled; its output is an input here. */
module LuauAst {
  import opened Wrappers

  /** A local variable (Luau::AstLocal). The parser allocates one node per
      declared local; `id` stands for that node's identity, so two locals are
      the same variable exactly when their ids agree, whatever their names. */
  datatype Local = Local(id: nat, name: string, annotation: Option<TypeNode>)

  predicate SameLocal(a: Local, b: Local) {
    a.id == b.id
  }

  /** Type annotations. `nil` is a reference named "nil"; `T?` is the union
      of T and nil. Table, function, typeof, intersection and singleton types
      are all TypeOther: the analysis never looks inside them. */
  datatype TypeNode =
    | TypeReference(name: string, hasParameterList: bool, parameters: seq<TypeParameter>)
    | TypeUnion(types: seq<TypeNode>)
    | TypeOther

  /** A generic argument is either a type or a type pack (`...T`, `()`). */
  datatype TypeParameter = TypeArg(argType: TypeNode) | TypePackArg

  datatype Expr =
    | ExprConstant                                   // nil, booleans, numbers, strings, `...`
    | ExprGlobal(globalName: string)
    | ExprLocal(local: Local)
    | ExprCall(func: Expr, args: seq<Expr>, isSelfCall: bool)
    | ExprIndexName(base: Expr, index: string, op: char)   // base.index or base:index
    | ExprIndexExpr(indexed: Expr, key: Expr)
    | ExprFunction(funcExpr: FunctionExpr)
    | ExprTable(items: seq<TableItem>)
    | ExprUnary(operand: Expr)
    | ExprBinary(left: Expr, right: Expr)
    | ExprGroup(inner: Expr)
    | ExprTypeAssertion(asserted: Expr, assertedType: TypeNode)
    | ExprIfElse(condition: Expr, whenTrue: Expr, whenFalse: Expr)

  datatype TableItem = TableItem(key: Option<Expr>, value: Expr)

  /** A function body (Luau::AstExprFunction): `self` is present only for
      `function a:b()` declarations, `args` are the declared parameters in
      order, `returnAnnotation` the list after `):` if there is one. */
  datatype FunctionExpr = FunctionExpr(
    self: Option<Local>,
    args: seq<Local>,
    vararg: bool,
    returnAnnotation: Option<seq<TypeNode>>,
    body: seq<Stat>)

  /** `function <name> ... end` (Luau::AstStatFunction). */
  datatype FunctionStat = FunctionStat(name: Expr, func: FunctionExpr)

  /** Statements. Bodies of `if`, loops and functions are statement lists;
      StatBlock is only the explicit `do ... end` block. */
  datatype Stat =
    | StatBlock(body: seq<Stat>)
    | StatIf(condition: Expr, thenBody: seq<Stat>, elseBody: seq<Stat>)
    | StatWhile(condition: Expr, body: seq<Stat>)
    | StatRepeat(body: seq<Stat>, condition: Expr)
    | StatReturn(list: seq<Expr>)
    | StatExpr(expr: Expr)
    | StatLocal(vars: seq<Local>, values: seq<Expr>)
    | StatFor(counter: Local, start: Expr, stop: Expr, step: Option<Expr>, body: seq<Stat>)
    | StatForIn(vars: seq<Local>, values: seq<Expr>, body: seq<Stat>)
    | StatAssign(targets: seq<Expr>, values: seq<Expr>)
    | StatCompoundAssign(target: Expr, value: Expr)
    | StatFunction(decl: FunctionStat)
    | StatLocalFunction(localName: Local, func: FunctionExpr)
    | StatOther                                      // break, continue, type aliases, declarations

  /** Line and column of a source position; both count from zero. */
  datatype Position = Position(line: nat, column: nat)

  datatype Location = Location(begin: Position, end: Position)

  /** Luau::Lexeme kinds a comment token can carry. */
  datatype CommentLexeme = LineComment | BlockComment | BrokenComment

  datatype CommentToken = CommentToken(lexeme: CommentLexeme, location: Location)

  /** Luau::ParseResult: the root block's statements and the comment tokens in
      source order. */
  datatype ParseResult = ParseResult(root: seq<Stat>, commentLocations: seq<CommentToken>)
}
