/** Tokens, expression trees and the token form that toString prints. */
module SqlAst {
  import opened Wrappers
  import opened Numbers

  datatype AggregateKind = COUNT | SUM | AVG | MIN | MAX

  datatype Token =
    | IntLit(n: nat) | FloatLit(size: Size) | StrLit(s: string) | TrueLit | FalseLit | NullLit | Ident(name: string)
    | LParen | RParen | Comma | Dot | Semicolon
    | Star | Slash | Percent | Plus | Minus | Concat | EqTok | NeTok | LtTok | GtTok | LeTok | GeTok
    | AndTok | OrTok | NotTok | IsTok | InTok | BetweenTok | LikeTok
    | CaseTok | WhenTok | ThenTok | ElseTok | EndTok | CoalesceTok | NullifTok | AggTok(kind: AggregateKind)
    | DistinctTok
    | SelectTok | FromTok | WhereTok | GroupTok | ByTok | HavingTok | OrderTok | AscTok | DescTok | LimitTok | OffsetTok
    | AsTok | JoinTok | InnerTok | LeftTok | RightTok | CrossTok | OnTok
    | InsertTok | IntoTok | ValuesTok | UpdateTok | SetTok | DeleteTok | CreateTok | DropTok | TableTok | IfTok
    | ExistsTok
    | TypeTok(base: TypeName) | Eof

  datatype TypeName = INT | BIGINT | FLOAT | DOUBLE | VARCHAR | TEXT | BOOLEAN

  datatype BinaryOp = OrOp | AndOp | EqOp | NeOp | LtOp | GtOp | LeOp | GeOp | AddOp | SubOp | ConcatOp | MulOp | DivOp
    | ModOp

  datatype UnaryOp = NotOp | NegOp | PosOp

  datatype Literal = NullLiteral | IntLiteral(i: int) | FloatLiteral(r: real) | BoolLiteral(b: bool)
    | StringLiteral(s: string)

  datatype WhenClause = WhenClause(cond: Expr, result: Expr)

  datatype Expr =
    | LiteralExpr(value: Literal)
    | ColumnRef(table: string, column: string)
    | BinaryExpr(op: BinaryOp, left: Expr, right: Expr)
    | UnaryExpr(uop: UnaryOp, operand: Expr)
    | IsNullExpr(expr: Expr, negated: bool)
    | AggregateExpr(kind: AggregateKind, arg: Option<Expr>, distinct: bool, star: bool)
    | CaseExpr(whens: seq<WhenClause>, otherwise: Option<Expr>)
    | InExpr(expr: Expr, values: seq<Expr>, negated: bool)
    | BetweenExpr(expr: Expr, low: Expr, high: Expr, negated: bool)
    | LikeExpr(expr: Expr, pattern: Expr, negated: bool)
    | CoalesceExpr(args: seq<Expr>)
    | NullifExpr(first: Expr, second: Expr)
    | FunctionCallExpr(name: string, args: seq<Expr>)

  // ----- printing

  function OpToken(op: BinaryOp): Token {
    match op
    case OrOp => OrTok case AndOp => AndTok
    case EqOp => EqTok case NeOp => NeTok case LtOp => LtTok case GtOp => GtTok case LeOp => LeTok case GeOp => GeTok
    case AddOp => Plus case SubOp => Minus case ConcatOp => Concat
    case MulOp => Star case DivOp => Slash case ModOp => Percent
  }

  function UnaryToken(op: UnaryOp): Token {
    match op case NotOp => NotTok case NegOp => Minus case PosOp => Plus
  }

  /** A negative number prints as a minus sign and a number, a float with six decimals. */
  function PrintLiteral(v: Literal): seq<Token> {
    match v
    case NullLiteral => [NullLit]
    case IntLiteral(i) => if i >= 0 then [IntLit(i)] else [Minus, IntLit(-i)]
    case FloatLiteral(r) => if r >= 0.0 then [FloatLit(Spelled(r))] else [Minus, FloatLit(Spelled(-r))]
    case BoolLiteral(b) => [if b then TrueLit else FalseLit]
    case StringLiteral(s) => [StrLit(s)]
  }

  function Negation(negated: bool): seq<Token> { if negated then [NotTok] else [] }

  function Print(e: Expr): (ts: seq<Token>)
    ensures ts != []
    decreases e
  {
    match e
    case LiteralExpr(v) => PrintLiteral(v)
    case ColumnRef(table, column) => if table == "" then [Ident(column)] else [Ident(table), Dot, Ident(column)]
    case BinaryExpr(op, l, r) => [LParen] + Print(l) + [OpToken(op)] + Print(r) + [RParen]
    case UnaryExpr(op, x) => [UnaryToken(op), LParen] + Print(x) + [RParen]
    case IsNullExpr(x, negated) => Print(x) + [IsTok] + Negation(negated) + [NullLit]
    case AggregateExpr(kind, arg, distinct, star) =>
      [AggTok(kind), LParen]
      + (if star then [Star]
         else (if distinct then [DistinctTok] else []) + if arg.Some? then Print(arg.value) else [])
      + [RParen]
    case CaseExpr(whens, otherwise) =>
      [CaseTok] + PrintWhens(whens) + (if otherwise.Some? then [ElseTok] + Print(otherwise.value) else []) + [EndTok]
    case InExpr(x, values, negated) =>
      [LParen] + Print(x) + Negation(negated) + [InTok, LParen] + PrintList(values) + [RParen, RParen]
    case BetweenExpr(x, low, high, negated) =>
      [LParen] + Print(x) + Negation(negated) + [BetweenTok] + Print(low) + [AndTok] + Print(high) + [RParen]
    case LikeExpr(x, pattern, negated) =>
      [LParen] + Print(x) + Negation(negated) + [LikeTok] + Print(pattern) + [RParen]
    case CoalesceExpr(args) => [CoalesceTok, LParen] + PrintList(args) + [RParen]
    case NullifExpr(a, b) => [NullifTok, LParen] + Print(a) + [Comma] + Print(b) + [RParen]
    case FunctionCallExpr(name, args) => [Ident(name), LParen] + PrintList(args) + [RParen]
  }

  function PrintWhens(whens: seq<WhenClause>): seq<Token>
    decreases whens
  {
    if whens == [] then []
    else PrintWhen(whens[0]) + PrintWhens(whens[1..])
  }

  function PrintWhen(w: WhenClause): seq<Token>
    decreases w
  {
    [WhenTok] + Print(w.cond) + [ThenTok] + Print(w.result)
  }

  /** Items separated by commas. */
  function PrintList(es: seq<Expr>): seq<Token>
    decreases es, 1
  {
    if es == [] then [] else Print(es[0]) + PrintMore(es[1..])
  }

  function PrintMore(es: seq<Expr>): seq<Token>
    decreases es, 0
  {
    if es == [] then [] else [Comma] + Print(es[0]) + PrintMore(es[1..])
  }
}
