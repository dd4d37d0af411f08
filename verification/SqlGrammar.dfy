/** The recursive-descent grammar as functions from the tokens left to a tree and the tokens left after it. */
module SqlGrammar {
  import opened Wrappers
  import opened Numbers
  import opened SqlAst

  datatype Parse<+T> = Fail | Got(value: T, rest: seq<Token>)

  /** The current token; past the last one it is the end-of-input token. */
  function First(ts: seq<Token>): Token { if ts == [] then Eof else ts[0] }

  predicate Starts(ts: seq<Token>, t: Token) { ts != [] && ts[0] == t }

  // ----- operator levels

  function ReadExpression(ts: seq<Token>): (r: Parse<Expr>)
    ensures r.Got? ==> |r.rest| < |ts|
    decreases |ts|, 10
  {
    ReadOr(ts)
  }

  function ReadOr(ts: seq<Token>): (r: Parse<Expr>)
    ensures r.Got? ==> |r.rest| < |ts|
    decreases |ts|, 9
  {
    var l := ReadAnd(ts);
    if l.Fail? then Fail else ReadOrTail(l.value, l.rest)
  }

  /** The loop of parseOrExpr: one more operand for every OR. */
  function ReadOrTail(left: Expr, ts: seq<Token>): (r: Parse<Expr>)
    ensures r.Got? ==> |r.rest| <= |ts|
    decreases |ts|, 8
  {
    if !Starts(ts, OrTok) then Got(left, ts)
    else
      var x := ReadAnd(ts[1..]);
      if x.Fail? then Fail else ReadOrTail(BinaryExpr(OrOp, left, x.value), x.rest)
  }

  function ReadAnd(ts: seq<Token>): (r: Parse<Expr>)
    ensures r.Got? ==> |r.rest| < |ts|
    decreases |ts|, 8
  {
    var l := ReadNot(ts);
    if l.Fail? then Fail else ReadAndTail(l.value, l.rest)
  }

  function ReadAndTail(left: Expr, ts: seq<Token>): (r: Parse<Expr>)
    ensures r.Got? ==> |r.rest| <= |ts|
    decreases |ts|, 7
  {
    if !Starts(ts, AndTok) then Got(left, ts)
    else
      var x := ReadNot(ts[1..]);
      if x.Fail? then Fail else ReadAndTail(BinaryExpr(AndOp, left, x.value), x.rest)
  }

  function ReadNot(ts: seq<Token>): (r: Parse<Expr>)
    ensures r.Got? ==> |r.rest| < |ts|
    decreases |ts|, 7
  {
    if Starts(ts, NotTok) then
      var x := ReadNot(ts[1..]);
      if x.Fail? then Fail else Got(UnaryExpr(NotOp, x.value), x.rest)
    else ReadComparison(ts)
  }

  function CompareOp(t: Token): Option<BinaryOp> {
    match t
    case EqTok => Some(EqOp) case NeTok => Some(NeOp) case LtTok => Some(LtOp)
    case GtTok => Some(GtOp) case LeTok => Some(LeOp) case GeTok => Some(GeOp)
    case _ => None
  }

  /** At most one comparison, then at most one of IS [NOT] NULL, [NOT] BETWEEN, [NOT] LIKE and [NOT] IN. */
  function ReadComparison(ts: seq<Token>): (r: Parse<Expr>)
    ensures r.Got? ==> |r.rest| < |ts|
    decreases |ts|, 6
  {
    var l := ReadAdditive(ts);
    if l.Fail? then Fail
    else
      var c := ReadCompared(l.value, l.rest);
      if c.Fail? then Fail else ReadPostfix(c.value, c.rest)
  }

  function ReadCompared(left: Expr, ts: seq<Token>): (r: Parse<Expr>)
    ensures r.Got? ==> |r.rest| <= |ts|
    decreases |ts|, 5
  {
    var op := CompareOp(First(ts));
    if op.None? then Got(left, ts)
    else
      var x := ReadAdditive(ts[1..]);
      if x.Fail? then Fail else Got(BinaryExpr(op.value, left, x.value), x.rest)
  }

  function ReadPostfix(left: Expr, ts: seq<Token>): (r: Parse<Expr>)
    ensures r.Got? ==> |r.rest| <= |ts|
    decreases |ts|, 5
  {
    if Starts(ts, IsTok) then ReadIsNull(left, ts[1..])
    else if Starts(ts, NotTok) then
      if Starts(ts[1..], BetweenTok) || Starts(ts[1..], LikeTok) || Starts(ts[1..], InTok)
      then ReadTest(left, true, ts[1..])
      else Fail
    else if Starts(ts, BetweenTok) || Starts(ts, LikeTok) || Starts(ts, InTok) then ReadTest(left, false, ts)
    else Got(left, ts)
  }

  function ReadIsNull(left: Expr, ts: seq<Token>): (r: Parse<Expr>)
    ensures r.Got? ==> |r.rest| <= |ts|
  {
    var negated := Starts(ts, NotTok);
    var us := if negated then ts[1..] else ts;
    if Starts(us, NullLit) then Got(IsNullExpr(left, negated), us[1..]) else Fail
  }

  /** BETWEEN, LIKE or IN, the current token, and what follows it. */
  function ReadTest(left: Expr, negated: bool, ts: seq<Token>): (r: Parse<Expr>)
    requires Starts(ts, BetweenTok) || Starts(ts, LikeTok) || Starts(ts, InTok)
    ensures r.Got? ==> |r.rest| < |ts|
    decreases |ts|, 4
  {
    if ts[0] == BetweenTok then ReadBetween(left, negated, ts[1..])
    else if ts[0] == LikeTok then
      var p := ReadPrimary(ts[1..]);
      if p.Fail? then Fail else Got(LikeExpr(left, p.value, negated), p.rest)
    else
      if !Starts(ts[1..], LParen) then Fail
      else
        var vs := ReadList(ts[2..]);
        if vs.Fail? || !Starts(vs.rest, RParen) then Fail else Got(InExpr(left, vs.value, negated), vs.rest[1..])
  }

  function ReadBetween(left: Expr, negated: bool, ts: seq<Token>): (r: Parse<Expr>)
    ensures r.Got? ==> |r.rest| < |ts|
    decreases |ts|, 6
  {
    var low := ReadAdditive(ts);
    if low.Fail? || !Starts(low.rest, AndTok) then Fail
    else
      var high := ReadAdditive(low.rest[1..]);
      if high.Fail? then Fail else Got(BetweenExpr(left, low.value, high.value, negated), high.rest)
  }

  function AddOpOf(t: Token): Option<BinaryOp> {
    match t case Plus => Some(AddOp) case Minus => Some(SubOp) case Concat => Some(ConcatOp) case _ => None
  }

  function ReadAdditive(ts: seq<Token>): (r: Parse<Expr>)
    ensures r.Got? ==> |r.rest| < |ts|
    decreases |ts|, 5
  {
    var l := ReadMultiplicative(ts);
    if l.Fail? then Fail else ReadAdditiveTail(l.value, l.rest)
  }

  function ReadAdditiveTail(left: Expr, ts: seq<Token>): (r: Parse<Expr>)
    ensures r.Got? ==> |r.rest| <= |ts|
    decreases |ts|, 4
  {
    var op := AddOpOf(First(ts));
    if op.None? then Got(left, ts)
    else
      var x := ReadMultiplicative(ts[1..]);
      if x.Fail? then Fail else ReadAdditiveTail(BinaryExpr(op.value, left, x.value), x.rest)
  }

  function MulOpOf(t: Token): Option<BinaryOp> {
    match t case Star => Some(MulOp) case Slash => Some(DivOp) case Percent => Some(ModOp) case _ => None
  }

  function ReadMultiplicative(ts: seq<Token>): (r: Parse<Expr>)
    ensures r.Got? ==> |r.rest| < |ts|
    decreases |ts|, 4
  {
    var l := ReadUnary(ts);
    if l.Fail? then Fail else ReadMultiplicativeTail(l.value, l.rest)
  }

  function ReadMultiplicativeTail(left: Expr, ts: seq<Token>): (r: Parse<Expr>)
    ensures r.Got? ==> |r.rest| <= |ts|
    decreases |ts|, 3
  {
    var op := MulOpOf(First(ts));
    if op.None? then Got(left, ts)
    else
      var x := ReadUnary(ts[1..]);
      if x.Fail? then Fail else ReadMultiplicativeTail(BinaryExpr(op.value, left, x.value), x.rest)
  }

  function ReadUnary(ts: seq<Token>): (r: Parse<Expr>)
    ensures r.Got? ==> |r.rest| < |ts|
    decreases |ts|, 3
  {
    if Starts(ts, Minus) || Starts(ts, Plus) then
      var x := ReadUnary(ts[1..]);
      if x.Fail? then Fail else Got(UnaryExpr(if ts[0] == Minus then NegOp else PosOp, x.value), x.rest)
    else ReadPrimary(ts)
  }

  // ----- primaries

  function ReadPrimary(ts: seq<Token>): (r: Parse<Expr>)
    ensures r.Got? ==> |r.rest| < |ts|
    decreases |ts|, 2
  {
    match First(ts)
    case CaseTok => ReadCase(ts[1..])
    case CoalesceTok => ReadCoalesce(ts[1..])
    case NullifTok => ReadNullif(ts[1..])
    case AggTok(kind) => ReadAggregate(kind, ts[1..])
    case IntLit(n) => Got(LiteralExpr(IntLiteral(n)), ts[1..])
    case FloatLit(size) => Got(LiteralExpr(FloatLiteral(Nearest(size))), ts[1..])
    case StrLit(s) => Got(LiteralExpr(StringLiteral(s)), ts[1..])
    case TrueLit => Got(LiteralExpr(BoolLiteral(true)), ts[1..])
    case FalseLit => Got(LiteralExpr(BoolLiteral(false)), ts[1..])
    case NullLit => Got(LiteralExpr(NullLiteral), ts[1..])
    case LParen =>
      var x := ReadExpression(ts[1..]);
      if x.Fail? || !Starts(x.rest, RParen) then Fail else Got(x.value, x.rest[1..])
    case Ident(name) => ReadName(name, ts[1..])
    case _ => Fail
  }

  /** What follows an identifier: a call, a column of the table it names, or nothing. */
  function ReadName(name: string, ts: seq<Token>): (r: Parse<Expr>)
    ensures r.Got? ==> |r.rest| <= |ts|
    decreases |ts|, 12
  {
    if Starts(ts, LParen) then
      if Starts(ts[1..], RParen) then Got(FunctionCallExpr(name, []), ts[2..])
      else
        var args := ReadList(ts[1..]);
        if args.Fail? || !Starts(args.rest, RParen) then Fail
        else Got(FunctionCallExpr(name, args.value), args.rest[1..])
    else if Starts(ts, Dot) then
      if First(ts[1..]).Ident? then Got(ColumnRef(name, ts[1].name), ts[2..]) else Fail
    else Got(ColumnRef("", name), ts)
  }

  /** One expression, and one more for every comma. */
  function ReadList(ts: seq<Token>): (r: Parse<seq<Expr>>)
    ensures r.Got? ==> |r.rest| < |ts|
    decreases |ts|, 11
  {
    var x := ReadExpression(ts);
    if x.Fail? then Fail else ReadMore([x.value], x.rest)
  }

  function ReadMore(es: seq<Expr>, ts: seq<Token>): (r: Parse<seq<Expr>>)
    ensures r.Got? ==> |r.rest| <= |ts|
    decreases |ts|, 10
  {
    if !Starts(ts, Comma) then Got(es, ts)
    else
      var x := ReadExpression(ts[1..]);
      if x.Fail? then Fail else ReadMore(es + [x.value], x.rest)
  }

  function ReadAggregate(kind: AggregateKind, ts: seq<Token>): (r: Parse<Expr>)
    ensures r.Got? ==> |r.rest| < |ts|
    decreases |ts|, 12
  {
    if !Starts(ts, LParen) then Fail
    else if kind.COUNT? && Starts(ts[1..], Star) then
      if Starts(ts[2..], RParen) then Got(AggregateExpr(kind, None, false, true), ts[3..]) else Fail
    else
      var distinct := Starts(ts[1..], DistinctTok);
      var x := ReadExpression(if distinct then ts[2..] else ts[1..]);
      if x.Fail? || !Starts(x.rest, RParen) then Fail
      else Got(AggregateExpr(kind, Some(x.value), distinct, false), x.rest[1..])
  }

  function ReadCase(ts: seq<Token>): (r: Parse<Expr>)
    ensures r.Got? ==> |r.rest| < |ts|
    decreases |ts|, 13
  {
    var whens := ReadWhens([], ts);
    if whens.Fail? then Fail else ReadElse(whens.value, whens.rest)
  }

  function ReadWhens(whens: seq<WhenClause>, ts: seq<Token>): (r: Parse<seq<WhenClause>>)
    ensures r.Got? ==> |r.rest| <= |ts|
    decreases |ts|, 11
  {
    if !Starts(ts, WhenTok) then Got(whens, ts)
    else
      var w := ReadWhen(ts[1..]);
      if w.Fail? then Fail else ReadWhens(whens + [w.value], w.rest)
  }

  function ReadWhen(ts: seq<Token>): (r: Parse<WhenClause>)
    ensures r.Got? ==> |r.rest| < |ts|
    decreases |ts|, 11
  {
    var c := ReadExpression(ts);
    if c.Fail? || !Starts(c.rest, ThenTok) then Fail
    else
      var x := ReadExpression(c.rest[1..]);
      if x.Fail? then Fail else Got(WhenClause(c.value, x.value), x.rest)
  }

  function ReadElse(whens: seq<WhenClause>, ts: seq<Token>): (r: Parse<Expr>)
    ensures r.Got? ==> |r.rest| < |ts|
    decreases |ts|, 11
  {
    if Starts(ts, ElseTok) then
      var x := ReadExpression(ts[1..]);
      if x.Fail? || !Starts(x.rest, EndTok) then Fail else Got(CaseExpr(whens, Some(x.value)), x.rest[1..])
    else if Starts(ts, EndTok) then Got(CaseExpr(whens, None), ts[1..])
    else Fail
  }

  function ReadCoalesce(ts: seq<Token>): (r: Parse<Expr>)
    ensures r.Got? ==> |r.rest| < |ts|
    decreases |ts|, 12
  {
    if !Starts(ts, LParen) then Fail
    else
      var args := ReadList(ts[1..]);
      if args.Fail? || !Starts(args.rest, RParen) then Fail else Got(CoalesceExpr(args.value), args.rest[1..])
  }

  function ReadNullif(ts: seq<Token>): (r: Parse<Expr>)
    ensures r.Got? ==> |r.rest| < |ts|
    decreases |ts|, 12
  {
    if !Starts(ts, LParen) then Fail
    else
      var a := ReadExpression(ts[1..]);
      if a.Fail? || !Starts(a.rest, Comma) then Fail
      else
        var b := ReadExpression(a.rest[1..]);
        if b.Fail? || !Starts(b.rest, RParen) then Fail else Got(NullifExpr(a.value, b.value), b.rest[1..])
  }
}
