/** Reading back printed expressions: for well-formed trees the printer and the parser undo each other. */
module SqlRoundTrip {
  import opened Wrappers
  import opened Numbers
  import opened SqlAst
  import opened SqlGrammar

  // ----- well-formed trees

  /** A number literal that prints with a minus sign. */
  predicate Signed(v: Literal) { (v.IntLiteral? && v.i < 0) || (v.FloatLiteral? && v.r < 0.0) }

  /** The number without its sign. */
  function Unsigned(v: Literal): Literal
    requires Signed(v)
  {
    if v.IntLiteral? then IntLiteral(-v.i) else FloatLiteral(-v.r)
  }

  /** A literal that prints as one token and keeps its value: of the floats, the doubles nearest to what is printed. */
  predicate Exact(v: Literal) { !Signed(v) && (v.FloatLiteral? ==> Nearest(Spelled(v.r)) == v.r) }

  /** What reading a printed literal without a sign gives. */
  function ReadAs(v: Literal): Literal
    requires !Signed(v)
  {
    if v.FloatLiteral? then FloatLiteral(Nearest(Spelled(v.r))) else v
  }

  /** How loosely the printed form binds: 0 is a primary, 1 a signed operand, 2 a NULL test, 3 a NOT. */
  function Level(e: Expr): nat {
    match e
    case UnaryExpr(op, _) => if op.NotOp? then 3 else 1
    case IsNullExpr(_, _) => 2
    case LiteralExpr(v) => if Signed(v) then 1 else 0
    case _ => 0
  }

  /**
   * NOT and NULL tests print without parentheses, so they may only be operands of AND, OR and NOT or stand where a
   * whole expression is read; a LIKE pattern must print as a primary; numbers are not signed, and a float is the double
   * nearest to its six decimals; argument lists of IN and COALESCE are not empty; a star belongs to COUNT alone.
   */
  predicate WF(e: Expr)
    decreases e
  {
    match e
    case LiteralExpr(v) => Exact(v)
    case ColumnRef(_, _) => true
    case BinaryExpr(op, l, r) => WF(l) && WF(r) && (op.OrOp? || op.AndOp? || (Level(l) <= 1 && Level(r) <= 1))
    case UnaryExpr(_, x) => WF(x)
    case IsNullExpr(x, _) => WF(x) && Level(x) <= 1
    case AggregateExpr(kind, arg, distinct, star) =>
      if star then kind.COUNT? && arg.None? && !distinct else arg.Some? && WF(arg.value)
    case CaseExpr(whens, otherwise) => WhensWF(whens) && (otherwise.Some? ==> WF(otherwise.value))
    case InExpr(x, values, _) => WF(x) && Level(x) <= 1 && values != [] && AllWF(values)
    case BetweenExpr(x, low, high, _) =>
      WF(x) && WF(low) && WF(high) && Level(x) <= 1 && Level(low) <= 1 && Level(high) <= 1
    case LikeExpr(x, pattern, _) => WF(x) && WF(pattern) && Level(x) <= 1 && Level(pattern) == 0
    case CoalesceExpr(args) => args != [] && AllWF(args)
    case NullifExpr(a, b) => WF(a) && WF(b)
    case FunctionCallExpr(_, args) => AllWF(args)
  }

  predicate AllWF(es: seq<Expr>)
    decreases es
  {
    es == [] || (WF(es[0]) && AllWF(es[1..]))
  }

  predicate WhenWF(w: WhenClause)
    decreases w
  {
    WF(w.cond) && WF(w.result)
  }

  predicate WhensWF(whens: seq<WhenClause>)
    decreases whens
  {
    whens == [] || (WhenWF(whens[0]) && WhensWF(whens[1..]))
  }

  // ----- tokens that do not continue an expression

  predicate NameEnds(ts: seq<Token>) { !Starts(ts, LParen) && !Starts(ts, Dot) }

  predicate TermEnds(ts: seq<Token>) { NameEnds(ts) && !Starts(ts, Star) && !Starts(ts, Slash) && !Starts(ts, Percent) }

  predicate SumEnds(ts: seq<Token>) { TermEnds(ts) && !Starts(ts, Plus) && !Starts(ts, Minus) && !Starts(ts, Concat) }

  predicate TestEnds(ts: seq<Token>) {
    && SumEnds(ts) && !Starts(ts, EqTok) && !Starts(ts, NeTok) && !Starts(ts, LtTok) && !Starts(ts, GtTok)
    && !Starts(ts, LeTok) && !Starts(ts, GeTok)
    && !Starts(ts, IsTok) && !Starts(ts, NotTok) && !Starts(ts, BetweenTok) && !Starts(ts, LikeTok)
    && !Starts(ts, InTok)
  }

  /** No token that the expression grammar would read on with. */
  predicate Ends(ts: seq<Token>) { TestEnds(ts) && !Starts(ts, AndTok) && !Starts(ts, OrTok) }

  // ----- reading, as a relation

  datatype Rule = ExpressionRule | AndRule | NotRule | ComparisonRule | AdditiveRule | MultiplicativeRule | UnaryRule
    | PrimaryRule

  /** The rule reads tree e off the tokens and stops before `rest`. */
  predicate Reads(rule: Rule, ts: seq<Token>, e: Expr, rest: seq<Token>) {
    var r := match rule
      case ExpressionRule => ReadExpression(ts) case AndRule => ReadAnd(ts) case NotRule => ReadNot(ts)
      case ComparisonRule => ReadComparison(ts) case AdditiveRule => ReadAdditive(ts)
      case MultiplicativeRule => ReadMultiplicative(ts) case UnaryRule => ReadUnary(ts)
      case PrimaryRule => ReadPrimary(ts);
    r == Got(e, rest)
  }

  predicate ReadsTest(x: Expr, negated: bool, us: seq<Token>, e: Expr, rest: seq<Token>)
    requires Starts(us, BetweenTok) || Starts(us, LikeTok) || Starts(us, InTok)
  {
    ReadTest(x, negated, us) == Got(e, rest)
  }

  predicate ReadsList(ts: seq<Token>, es: seq<Expr>, rest: seq<Token>) { ReadList(ts) == Got(es, rest) }

  predicate ReadsMore(done: seq<Expr>, ts: seq<Token>, es: seq<Expr>, rest: seq<Token>) {
    ReadMore(done, ts) == Got(es, rest)
  }

  predicate ReadsWhens(done: seq<WhenClause>, ts: seq<Token>, whens: seq<WhenClause>, rest: seq<Token>) {
    ReadWhens(done, ts) == Got(whens, rest)
  }

  lemma EndsAll(ts: seq<Token>)
    ensures Ends(ts) ==> TestEnds(ts)
    ensures TestEnds(ts) ==> SumEnds(ts)
    ensures SumEnds(ts) ==> TermEnds(ts)
    ensures TermEnds(ts) ==> NameEnds(ts)
    ensures Ends(ts) ==> !Starts(ts, AndTok) && !Starts(ts, OrTok)
  {
  }

  lemma Closing(t: Token, ts: seq<Token>)
    requires t == RParen || t == Comma || t == WhenTok || t == ThenTok || t == ElseTok || t == EndTok
    ensures Ends([t] + ts)
  {
  }

  /** An operator token ends the operands of its own level. */
  lemma Operator(op: BinaryOp, ts: seq<Token>)
    ensures NameEnds([OpToken(op)] + ts)
    ensures op.AddOp? || op.SubOp? || op.ConcatOp? ==> TermEnds([OpToken(op)] + ts)
    ensures CompareOp(OpToken(op)).Some? ==> SumEnds([OpToken(op)] + ts)
    ensures op.AndOp? || op.OrOp? ==> TestEnds([OpToken(op)] + ts)
    ensures OpToken(AndOp) == AndTok && OpToken(OrOp) == OrTok
    ensures op.MulOp? || op.DivOp? || op.ModOp? || op.AddOp? || op.SubOp? || op.ConcatOp? || op.AndOp? || op.OrOp?
            || CompareOp(OpToken(op)) == Some(op)
  {
  }

  /** So do AND between bounds and the words of the tests. */
  lemma TestWord(negated: bool, ts: seq<Token>)
    requires Starts(ts, IsTok) || Starts(ts, BetweenTok) || Starts(ts, LikeTok) || Starts(ts, InTok)
             || Starts(ts, AndTok)
    ensures SumEnds(Negation(negated) + ts) && SumEnds(ts)
  {
    assert negated ==> First([NotTok] + ts) == NotTok;
    assert [] + ts == ts;
  }

  // ----- from one level of the grammar to the next

  lemma TermStops(e: Expr, rest: seq<Token>)
    requires TermEnds(rest)
    ensures ReadMultiplicativeTail(e, rest) == Got(e, rest)
  {
    hide ReadUnary;
    assert MulOpOf(First(rest)).None?;
  }

  lemma ClimbTerm(ts: seq<Token>, e: Expr, rest: seq<Token>)
    requires Reads(UnaryRule, ts, e, rest) && TermEnds(rest)
    ensures Reads(MultiplicativeRule, ts, e, rest)
  {
    hide ReadExpression, ReadAnd, ReadNot, ReadComparison, ReadAdditive, ReadUnary, ReadPrimary,
         ReadMultiplicativeTail, TermEnds;
    TermStops(e, rest);
    assert ReadMultiplicative(ts) == ReadMultiplicativeTail(e, rest);
  }

  lemma SumStops(e: Expr, rest: seq<Token>)
    requires SumEnds(rest)
    ensures ReadAdditiveTail(e, rest) == Got(e, rest)
  {
    hide ReadMultiplicative;
    assert AddOpOf(First(rest)).None?;
  }

  lemma ClimbSum(ts: seq<Token>, e: Expr, rest: seq<Token>)
    requires Reads(MultiplicativeRule, ts, e, rest) && SumEnds(rest)
    ensures Reads(AdditiveRule, ts, e, rest)
  {
    hide ReadExpression, ReadAnd, ReadNot, ReadComparison, ReadMultiplicative, ReadUnary, ReadPrimary,
         ReadAdditiveTail, SumEnds;
    SumStops(e, rest);
    assert ReadAdditive(ts) == ReadAdditiveTail(e, rest);
  }

  /** With no comparison operator next, a comparison is its left side and what ReadPostfix makes of it. */
  lemma NotCompared(ts: seq<Token>, x: Expr, t: seq<Token>)
    requires Reads(AdditiveRule, ts, x, t) && CompareOp(First(t)).None?
    ensures ReadComparison(ts) == ReadPostfix(x, t)
  {
    hide ReadExpression, ReadAnd, ReadNot, ReadAdditive, ReadMultiplicative, ReadUnary, ReadPrimary, ReadPostfix;
    assert ReadCompared(x, t) == Got(x, t);
  }

  lemma Stops(x: Expr, rest: seq<Token>)
    requires TestEnds(rest)
    ensures ReadPostfix(x, rest) == Got(x, rest) && CompareOp(First(rest)).None?
  {
    hide ReadTest, ReadIsNull;
  }

  lemma ClimbTest(ts: seq<Token>, e: Expr, rest: seq<Token>)
    requires Reads(AdditiveRule, ts, e, rest) && TestEnds(rest)
    ensures Reads(ComparisonRule, ts, e, rest)
  {
    hide ReadExpression, ReadAnd, ReadNot, ReadComparison, ReadAdditive, ReadMultiplicative, ReadUnary, ReadPrimary,
         ReadPostfix, TestEnds;
    Stops(e, rest);
    NotCompared(ts, e, rest);
  }

  lemma ClimbNot(ts: seq<Token>, e: Expr, rest: seq<Token>)
    requires Reads(ComparisonRule, ts, e, rest) && !Starts(ts, NotTok)
    ensures Reads(NotRule, ts, e, rest)
  {
    hide ReadExpression, ReadAnd, ReadComparison, ReadAdditive, ReadMultiplicative, ReadUnary, ReadPrimary;
  }

  lemma ClimbAnd(ts: seq<Token>, e: Expr, rest: seq<Token>)
    requires Reads(NotRule, ts, e, rest) && !Starts(rest, AndTok)
    ensures Reads(AndRule, ts, e, rest)
  {
    hide ReadExpression, ReadNot, ReadComparison, ReadAdditive, ReadMultiplicative, ReadUnary, ReadPrimary;
    assert ReadAnd(ts) == ReadAndTail(e, rest);
  }

  lemma ClimbOr(ts: seq<Token>, e: Expr, rest: seq<Token>)
    requires Reads(AndRule, ts, e, rest) && !Starts(rest, OrTok)
    ensures Reads(ExpressionRule, ts, e, rest)
  {
    hide ReadAnd, ReadNot, ReadComparison, ReadAdditive, ReadMultiplicative, ReadUnary, ReadPrimary;
    assert ReadOr(ts) == ReadOrTail(e, rest);
  }

  lemma ClimbFromNot(ts: seq<Token>, e: Expr, rest: seq<Token>)
    requires Reads(NotRule, ts, e, rest) && Ends(rest)
    ensures Reads(ExpressionRule, ts, e, rest)
  {
    hide Reads;
    ClimbAnd(ts, e, rest);
    ClimbOr(ts, e, rest);
  }

  lemma ClimbFromTest(ts: seq<Token>, e: Expr, rest: seq<Token>)
    requires Reads(ComparisonRule, ts, e, rest) && Ends(rest) && !Starts(ts, NotTok)
    ensures Reads(ExpressionRule, ts, e, rest)
  {
    hide Reads;
    ClimbNot(ts, e, rest);
    ClimbFromNot(ts, e, rest);
  }

  lemma ClimbFromSum(ts: seq<Token>, e: Expr, rest: seq<Token>)
    requires Reads(AdditiveRule, ts, e, rest) && Ends(rest) && !Starts(ts, NotTok)
    ensures Reads(ExpressionRule, ts, e, rest)
  {
    hide Reads;
    ClimbTest(ts, e, rest);
    ClimbFromTest(ts, e, rest);
  }

  // ----- one construct at a time

  lemma ReadParens(inner: seq<Token>, e: Expr, rest: seq<Token>)
    requires Reads(ExpressionRule, inner, e, [RParen] + rest)
    ensures Reads(PrimaryRule, [LParen] + inner, e, rest)
  {
    hide ReadExpression, ReadAnd, ReadNot, ReadComparison, ReadAdditive, ReadMultiplicative, ReadUnary, ReadName,
         ReadAggregate, ReadCase, ReadNullif, ReadCoalesce;
    assert ([LParen] + inner)[1..] == inner;
  }

  lemma ReadNegated(inner: seq<Token>, e: Expr, rest: seq<Token>)
    requires Reads(NotRule, inner, e, rest)
    ensures Reads(NotRule, [NotTok] + inner, UnaryExpr(NotOp, e), rest)
  {
    hide ReadExpression, ReadAnd, ReadComparison, ReadAdditive, ReadMultiplicative, ReadUnary, ReadPrimary;
    assert ([NotTok] + inner)[1..] == inner;
  }

  lemma ReadSigned(op: UnaryOp, inner: seq<Token>, e: Expr, rest: seq<Token>)
    requires !op.NotOp? && Reads(UnaryRule, inner, e, rest)
    ensures Reads(UnaryRule, [UnaryToken(op)] + inner, UnaryExpr(op, e), rest)
  {
    hide ReadExpression, ReadAnd, ReadNot, ReadComparison, ReadAdditive, ReadMultiplicative, ReadPrimary;
    assert ([UnaryToken(op)] + inner)[1..] == inner;
  }

  lemma ReadProduct(ts: seq<Token>, l: Expr, op: BinaryOp, us: seq<Token>, r: Expr, rest: seq<Token>)
    requires op.MulOp? || op.DivOp? || op.ModOp?
    requires Reads(UnaryRule, ts, l, [OpToken(op)] + us) && Reads(UnaryRule, us, r, rest) && TermEnds(rest)
    ensures Reads(MultiplicativeRule, ts, BinaryExpr(op, l, r), rest)
  {
    hide ReadExpression, ReadAnd, ReadNot, ReadComparison, ReadAdditive, ReadUnary, ReadPrimary;
    var t := [OpToken(op)] + us;
    assert t[1..] == us;
    assert MulOpOf(First(t)) == Some(op);
    assert ReadMultiplicativeTail(l, t) == ReadMultiplicativeTail(BinaryExpr(op, l, r), rest);
  }

  lemma ReadSum(ts: seq<Token>, l: Expr, op: BinaryOp, us: seq<Token>, r: Expr, rest: seq<Token>)
    requires op.AddOp? || op.SubOp? || op.ConcatOp?
    requires Reads(MultiplicativeRule, ts, l, [OpToken(op)] + us) && Reads(MultiplicativeRule, us, r, rest)
             && SumEnds(rest)
    ensures Reads(AdditiveRule, ts, BinaryExpr(op, l, r), rest)
  {
    hide ReadExpression, ReadAnd, ReadNot, ReadComparison, ReadMultiplicative, ReadUnary, ReadPrimary;
    var t := [OpToken(op)] + us;
    assert t[1..] == us;
    assert AddOpOf(First(t)) == Some(op);
    assert ReadAdditiveTail(l, t) == ReadAdditiveTail(BinaryExpr(op, l, r), rest);
  }

  lemma ComparedOnce(l: Expr, op: BinaryOp, us: seq<Token>, r: Expr, rest: seq<Token>)
    requires CompareOp(OpToken(op)) == Some(op) && Reads(AdditiveRule, us, r, rest)
    ensures ReadCompared(l, [OpToken(op)] + us) == Got(BinaryExpr(op, l, r), rest)
  {
    hide ReadExpression, ReadAnd, ReadNot, ReadComparison, ReadAdditive, ReadMultiplicative, ReadUnary, ReadPrimary,
         CompareOp, OpToken;
    assert ([OpToken(op)] + us)[1..] == us;
  }

  lemma ReadCompare(ts: seq<Token>, l: Expr, op: BinaryOp, us: seq<Token>, r: Expr, rest: seq<Token>)
    requires CompareOp(OpToken(op)) == Some(op)
    requires Reads(AdditiveRule, ts, l, [OpToken(op)] + us) && Reads(AdditiveRule, us, r, rest) && TestEnds(rest)
    ensures Reads(ComparisonRule, ts, BinaryExpr(op, l, r), rest)
  {
    hide ReadExpression, ReadAnd, ReadNot, ReadAdditive, ReadMultiplicative, ReadUnary, ReadPrimary, ReadCompared,
         ReadPostfix, TestEnds;
    ComparedOnce(l, op, us, r, rest);
    Stops(BinaryExpr(op, l, r), rest);
  }

  lemma ReadConjunction(ts: seq<Token>, l: Expr, us: seq<Token>, r: Expr, rest: seq<Token>)
    requires Reads(NotRule, ts, l, [AndTok] + us) && Reads(NotRule, us, r, rest) && !Starts(rest, AndTok)
    ensures Reads(AndRule, ts, BinaryExpr(AndOp, l, r), rest)
  {
    hide ReadExpression, ReadNot, ReadComparison, ReadAdditive, ReadMultiplicative, ReadUnary, ReadPrimary;
    assert ([AndTok] + us)[1..] == us;
    assert ReadAndTail(l, [AndTok] + us) == ReadAndTail(BinaryExpr(AndOp, l, r), rest);
  }

  lemma ReadDisjunction(ts: seq<Token>, l: Expr, us: seq<Token>, r: Expr, rest: seq<Token>)
    requires Reads(AndRule, ts, l, [OrTok] + us) && Reads(AndRule, us, r, rest) && !Starts(rest, OrTok)
    ensures Reads(ExpressionRule, ts, BinaryExpr(OrOp, l, r), rest)
  {
    hide ReadAnd, ReadNot, ReadComparison, ReadAdditive, ReadMultiplicative, ReadUnary, ReadPrimary;
    assert ([OrTok] + us)[1..] == us;
    assert ReadOr(ts) == ReadOrTail(l, [OrTok] + us);
    assert ReadOrTail(l, [OrTok] + us) == ReadOrTail(BinaryExpr(OrOp, l, r), rest);
  }

  lemma PostfixNull(x: Expr, negated: bool, rest: seq<Token>)
    ensures ReadPostfix(x, [IsTok] + Negation(negated) + [NullLit] + rest) == Got(IsNullExpr(x, negated), rest)
  {
    hide ReadTest;
    var t := [IsTok] + Negation(negated) + [NullLit] + rest;
    if negated {
      assert t[1..] == [NotTok] + [NullLit] + rest && t[1..][1..] == [NullLit] + rest
          && ([NullLit] + rest)[1..] == rest;
    } else {
      assert t[1..] == [NullLit] + rest && t[1..][1..] == rest;
    }
  }

  lemma ReadNullTest(ts: seq<Token>, x: Expr, negated: bool, rest: seq<Token>)
    requires Reads(AdditiveRule, ts, x, [IsTok] + Negation(negated) + [NullLit] + rest)
    ensures Reads(ComparisonRule, ts, IsNullExpr(x, negated), rest)
  {
    hide ReadExpression, ReadAnd, ReadNot, ReadComparison, ReadAdditive, ReadMultiplicative, ReadUnary, ReadPrimary,
         ReadPostfix;
    PostfixNull(x, negated, rest);
    NotCompared(ts, x, [IsTok] + Negation(negated) + [NullLit] + rest);
  }

  /** [NOT] before BETWEEN, LIKE or IN. */
  lemma ReadAnyTest(ts: seq<Token>, x: Expr, negated: bool, us: seq<Token>, e: Expr, rest: seq<Token>)
    requires Starts(us, BetweenTok) || Starts(us, LikeTok) || Starts(us, InTok)
    requires Reads(AdditiveRule, ts, x, Negation(negated) + us) && ReadsTest(x, negated, us, e, rest)
    ensures Reads(ComparisonRule, ts, e, rest)
  {
    hide ReadExpression, ReadAnd, ReadNot, ReadComparison, ReadAdditive, ReadMultiplicative, ReadUnary, ReadPrimary,
         ReadTest, ReadPostfix;
    PostfixTest(x, negated, us, e, rest);
    NotCompared(ts, x, Negation(negated) + us);
  }

  lemma PostfixTest(x: Expr, negated: bool, us: seq<Token>, e: Expr, rest: seq<Token>)
    requires Starts(us, BetweenTok) || Starts(us, LikeTok) || Starts(us, InTok)
    requires ReadTest(x, negated, us) == Got(e, rest)
    ensures ReadPostfix(x, Negation(negated) + us) == Got(e, rest)
  {
    hide ReadTest, ReadPostfix, ReadIsNull;
    if negated { NegatedTest(x, us); } else { PlainTest(x, us); }
  }

  lemma NegatedTest(x: Expr, us: seq<Token>)
    requires Starts(us, BetweenTok) || Starts(us, LikeTok) || Starts(us, InTok)
    ensures ReadPostfix(x, Negation(true) + us) == ReadTest(x, true, us)
  {
    hide ReadTest, ReadIsNull;
    assert ([NotTok] + us)[1..] == us;
  }

  lemma PlainTest(x: Expr, us: seq<Token>)
    requires Starts(us, BetweenTok) || Starts(us, LikeTok) || Starts(us, InTok)
    ensures ReadPostfix(x, Negation(false) + us) == ReadTest(x, false, us)
  {
    hide ReadTest, ReadIsNull;
    assert [] + us == us;
  }

  lemma ReadBounds(x: Expr, negated: bool, us: seq<Token>, low: Expr, vs: seq<Token>, high: Expr, rest: seq<Token>)
    requires Reads(AdditiveRule, us, low, [AndTok] + vs) && Reads(AdditiveRule, vs, high, rest)
    ensures ReadsTest(x, negated, [BetweenTok] + us, BetweenExpr(x, low, high, negated), rest)
  {
    hide ReadExpression, ReadAnd, ReadNot, ReadComparison, ReadAdditive, ReadMultiplicative, ReadUnary, ReadPrimary,
         ReadList;
    assert ([BetweenTok] + us)[1..] == us && ([AndTok] + vs)[1..] == vs;
    assert ReadBetween(x, negated, us) == Got(BetweenExpr(x, low, high, negated), rest);
  }

  lemma ReadPattern(x: Expr, negated: bool, us: seq<Token>, p: Expr, rest: seq<Token>)
    requires Reads(PrimaryRule, us, p, rest)
    ensures ReadsTest(x, negated, [LikeTok] + us, LikeExpr(x, p, negated), rest)
  {
    hide ReadExpression, ReadAnd, ReadNot, ReadComparison, ReadAdditive, ReadMultiplicative, ReadUnary, ReadPrimary,
         ReadList, ReadBetween;
    assert ([LikeTok] + us)[1..] == us;
  }

  lemma ReadMembers(x: Expr, negated: bool, us: seq<Token>, values: seq<Expr>, rest: seq<Token>)
    requires ReadsList(us, values, [RParen] + rest)
    ensures ReadsTest(x, negated, [InTok, LParen] + us, InExpr(x, values, negated), rest)
  {
    hide ReadExpression, ReadAnd, ReadNot, ReadComparison, ReadAdditive, ReadMultiplicative, ReadUnary, ReadPrimary,
         ReadList;
    var t := [InTok, LParen] + us;
    assert t[1..] == [LParen] + us && t[2..] == us;
  }

  lemma ReadListOf(ts: seq<Token>, x: Expr, us: seq<Token>, es: seq<Expr>, rest: seq<Token>)
    requires Reads(ExpressionRule, ts, x, us) && ReadsMore([x], us, es, rest)
    ensures ReadsList(ts, es, rest)
  {
    hide ReadExpression, ReadAnd, ReadNot, ReadComparison, ReadAdditive, ReadMultiplicative, ReadUnary, ReadPrimary,
         ReadMore;
  }

  lemma ReadNoMore(es: seq<Expr>, rest: seq<Token>)
    requires !Starts(rest, Comma)
    ensures ReadsMore(es, rest, es, rest)
  {
  }

  lemma ReadNoWhen(whens: seq<WhenClause>, rest: seq<Token>)
    requires !Starts(rest, WhenTok)
    ensures ReadsWhens(whens, rest, whens, rest)
  {
  }

  lemma ReadOneMore(es: seq<Expr>, ts: seq<Token>, x: Expr, us: seq<Token>, all: seq<Expr>, rest: seq<Token>)
    requires Reads(ExpressionRule, ts, x, us) && ReadsMore(es + [x], us, all, rest)
    ensures ReadsMore(es, [Comma] + ts, all, rest)
  {
    hide ReadExpression, ReadAnd, ReadNot, ReadComparison, ReadAdditive, ReadMultiplicative, ReadUnary, ReadPrimary;
    assert ([Comma] + ts)[1..] == ts;
  }

  lemma ReadCall(name: string, us: seq<Token>, args: seq<Expr>, rest: seq<Token>)
    requires !Starts(us, RParen) && ReadsList(us, args, [RParen] + rest)
    ensures Reads(PrimaryRule, [Ident(name), LParen] + us, FunctionCallExpr(name, args), rest)
  {
    hide ReadExpression, ReadAnd, ReadNot, ReadComparison, ReadAdditive, ReadMultiplicative, ReadUnary,
         ReadAggregate, ReadCase, ReadNullif, ReadCoalesce, ReadList;
    var t := [Ident(name), LParen] + us;
    assert t[1..] == [LParen] + us && ([LParen] + us)[1..] == us;
    assert ReadName(name, [LParen] + us) == Got(FunctionCallExpr(name, args), rest);
  }

  lemma ReadEmptyCall(name: string, rest: seq<Token>)
    ensures Reads(PrimaryRule, [Ident(name), LParen, RParen] + rest, FunctionCallExpr(name, []), rest)
  {
    hide ReadExpression, ReadAnd, ReadNot, ReadComparison, ReadAdditive, ReadMultiplicative, ReadUnary,
         ReadAggregate, ReadCase, ReadNullif, ReadCoalesce, ReadList;
    var t := [Ident(name), LParen, RParen] + rest;
    assert t[1..] == [LParen, RParen] + rest && ([LParen, RParen] + rest)[2..] == rest;
    assert ReadName(name, t[1..]) == Got(FunctionCallExpr(name, []), rest);
  }

  lemma NamesColumn(table: string, column: string, rest: seq<Token>)
    ensures NameEnds(rest) ==> ReadName(column, rest) == Got(ColumnRef("", column), rest)
    ensures ReadName(table, [Dot, Ident(column)] + rest) == Got(ColumnRef(table, column), rest)
  {
    hide ReadList;
    var u := [Dot, Ident(column)] + rest;
    assert u[1..][0] == Ident(column) && u[2..] == rest;
  }

  lemma ReadColumn(table: string, column: string, rest: seq<Token>)
    requires NameEnds(rest)
    ensures Reads(PrimaryRule, Print(ColumnRef(table, column)) + rest, ColumnRef(table, column), rest)
  {
    hide ReadExpression, ReadAnd, ReadNot, ReadComparison, ReadAdditive, ReadMultiplicative, ReadUnary, ReadName,
         ReadAggregate, ReadCase, ReadNullif, ReadCoalesce, PrintList, PrintWhens;
    var t := Print(ColumnRef(table, column)) + rest;
    NamesColumn(table, column, rest);
    assert t[1..] == if table == "" then rest else [Dot, Ident(column)] + rest;
  }

  lemma ReadLiteral(v: Literal, rest: seq<Token>)
    requires !Signed(v)
    ensures Reads(PrimaryRule, Print(LiteralExpr(v)) + rest, LiteralExpr(ReadAs(v)), rest)
    ensures Exact(v) <==> ReadAs(v) == v
  {
    hide ReadExpression, ReadAnd, ReadNot, ReadComparison, ReadAdditive, ReadMultiplicative, ReadUnary, ReadName,
      ReadAggregate, ReadCase, ReadNullif, ReadCoalesce, PrintList, PrintWhens, Spelled, Nearest;
    assert (Print(LiteralExpr(v)) + rest)[1..] == rest;
  }

  lemma ReadCoalesced(us: seq<Token>, args: seq<Expr>, rest: seq<Token>)
    requires ReadsList(us, args, [RParen] + rest)
    ensures Reads(PrimaryRule, [CoalesceTok, LParen] + us, CoalesceExpr(args), rest)
  {
    hide ReadExpression, ReadAnd, ReadNot, ReadComparison, ReadAdditive, ReadMultiplicative, ReadUnary, ReadName,
         ReadAggregate, ReadCase, ReadNullif, ReadList;
    var t := [CoalesceTok, LParen] + us;
    assert t[1..] == [LParen] + us && ([LParen] + us)[1..] == us;
    assert ReadCoalesce([LParen] + us) == Got(CoalesceExpr(args), rest);
  }

  lemma NullifArguments(us: seq<Token>, a: Expr, vs: seq<Token>, b: Expr, rest: seq<Token>)
    requires Reads(ExpressionRule, us, a, [Comma] + vs) && Reads(ExpressionRule, vs, b, [RParen] + rest)
    ensures ReadNullif([LParen] + us) == Got(NullifExpr(a, b), rest)
  {
    hide ReadExpression, ReadAnd, ReadNot, ReadComparison, ReadAdditive, ReadMultiplicative, ReadUnary, ReadPrimary;
    assert ([LParen] + us)[1..] == us && ([Comma] + vs)[1..] == vs;
  }

  lemma ReadNullifOf(us: seq<Token>, a: Expr, vs: seq<Token>, b: Expr, rest: seq<Token>)
    requires Reads(ExpressionRule, us, a, [Comma] + vs) && Reads(ExpressionRule, vs, b, [RParen] + rest)
    ensures Reads(PrimaryRule, [NullifTok, LParen] + us, NullifExpr(a, b), rest)
  {
    hide ReadExpression, ReadAnd, ReadNot, ReadComparison, ReadAdditive, ReadMultiplicative, ReadUnary, ReadName,
         ReadAggregate, ReadCase, ReadCoalesce, ReadNullif;
    NullifArguments(us, a, vs, b, rest);
    assert ([NullifTok, LParen] + us)[1..] == [LParen] + us;
  }

  lemma StarArgument(rest: seq<Token>)
    ensures ReadAggregate(COUNT, [LParen, Star, RParen] + rest) == Got(AggregateExpr(COUNT, None, false, true), rest)
  {
    hide ReadExpression;
    var u := [LParen, Star, RParen] + rest;
    assert u[1..][0] == Star && u[2..][0] == RParen && u[3..] == rest;
  }

  lemma ReadCountStar(rest: seq<Token>)
    ensures Reads(PrimaryRule, [AggTok(COUNT), LParen, Star, RParen] + rest, AggregateExpr(COUNT, None, false, true),
            rest)
  {
    hide ReadExpression, ReadAnd, ReadNot, ReadComparison, ReadAdditive, ReadMultiplicative, ReadUnary, ReadName,
         ReadAggregate, ReadCase, ReadNullif, ReadCoalesce;
    StarArgument(rest);
    assert ([AggTok(COUNT), LParen, Star, RParen] + rest)[1..] == [LParen, Star, RParen] + rest;
  }

  lemma AggregateArgument(kind: AggregateKind, distinct: bool, us: seq<Token>, x: Expr, rest: seq<Token>)
    requires Reads(ExpressionRule, us, x, [RParen] + rest) && !Starts(us, Star) && !Starts(us, DistinctTok)
    ensures ReadAggregate(kind, [LParen] + (if distinct then [DistinctTok] else []) + us)
            == Got(AggregateExpr(kind, Some(x), distinct, false), rest)
  {
    hide ReadExpression, ReadAnd, ReadNot, ReadComparison, ReadAdditive, ReadMultiplicative, ReadUnary, ReadPrimary;
    var u := [LParen] + (if distinct then [DistinctTok] else []) + us;
    if distinct {
      assert u[1..] == [DistinctTok] + us && u[2..] == us;
    } else {
      assert u[1..] == us;
    }
  }

  lemma ReadAggregateOf(kind: AggregateKind, distinct: bool, us: seq<Token>, x: Expr, rest: seq<Token>)
    requires Reads(ExpressionRule, us, x, [RParen] + rest) && !Starts(us, Star) && !Starts(us, DistinctTok)
    ensures Reads(PrimaryRule, [AggTok(kind), LParen] + (if distinct then [DistinctTok] else []) + us,
                  AggregateExpr(kind, Some(x), distinct, false), rest)
  {
    hide ReadExpression, ReadAnd, ReadNot, ReadComparison, ReadAdditive, ReadMultiplicative, ReadUnary, ReadName,
         ReadAggregate, ReadCase, ReadNullif, ReadCoalesce;
    var u := [LParen] + (if distinct then [DistinctTok] else []) + us;
    AggregateArgument(kind, distinct, us, x, rest);
    assert ([AggTok(kind), LParen] + (if distinct then [DistinctTok] else []) + us)[1..] == u;
  }

  lemma ReadOneWhen(whens: seq<WhenClause>, ts: seq<Token>, c: Expr, us: seq<Token>, x: Expr, vs: seq<Token>,
                    all: seq<WhenClause>, rest: seq<Token>)
    requires Reads(ExpressionRule, ts, c, [ThenTok] + us) && Reads(ExpressionRule, us, x, vs)
    requires ReadsWhens(whens + [WhenClause(c, x)], vs, all, rest)
    ensures ReadsWhens(whens, [WhenTok] + ts, all, rest)
  {
    hide ReadExpression, ReadAnd, ReadNot, ReadComparison, ReadAdditive, ReadMultiplicative, ReadUnary, ReadPrimary;
    assert ([WhenTok] + ts)[1..] == ts && ([ThenTok] + us)[1..] == us;
    assert ReadWhen(ts) == Got(WhenClause(c, x), vs);
  }

  lemma ReadCaseEnd(ts: seq<Token>, whens: seq<WhenClause>, rest: seq<Token>)
    requires ReadsWhens([], ts, whens, [EndTok] + rest)
    ensures Reads(PrimaryRule, [CaseTok] + ts, CaseExpr(whens, None), rest)
  {
    hide ReadExpression, ReadAnd, ReadNot, ReadComparison, ReadAdditive, ReadMultiplicative, ReadUnary, ReadName,
         ReadAggregate, ReadNullif, ReadCoalesce, ReadWhens;
    assert ([CaseTok] + ts)[1..] == ts && ([EndTok] + rest)[1..] == rest;
    assert ReadElse(whens, [EndTok] + rest) == Got(CaseExpr(whens, None), rest);
    assert ReadCase(ts) == Got(CaseExpr(whens, None), rest);
  }

  lemma ReadCaseElse(ts: seq<Token>, whens: seq<WhenClause>, us: seq<Token>, x: Expr, rest: seq<Token>)
    requires ReadsWhens([], ts, whens, [ElseTok] + us) && Reads(ExpressionRule, us, x, [EndTok] + rest)
    ensures Reads(PrimaryRule, [CaseTok] + ts, CaseExpr(whens, Some(x)), rest)
  {
    hide ReadExpression, ReadAnd, ReadNot, ReadComparison, ReadAdditive, ReadMultiplicative, ReadUnary, ReadName,
         ReadAggregate, ReadNullif, ReadCoalesce, ReadWhens;
    assert ([CaseTok] + ts)[1..] == ts && ([ElseTok] + us)[1..] == us && ([EndTok] + rest)[1..] == rest;
    assert ReadElse(whens, [ElseTok] + us) == Got(CaseExpr(whens, Some(x)), rest);
    assert ReadCase(ts) == Got(CaseExpr(whens, Some(x)), rest);
  }

  // ----- printed forms, split where the parser splits them

  lemma Cat(a: seq<Token>, b: seq<Token>, c: seq<Token>)
    ensures (a + b) + c == a + (b + c)
  {
  }

  lemma BinaryShape(op: BinaryOp, l: Expr, r: Expr, rest: seq<Token>)
    ensures Print(BinaryExpr(op, l, r)) + rest
            == [LParen] + (Print(l) + ([OpToken(op)] + (Print(r) + ([RParen] + rest))))
  {
    hide PrintList, PrintWhens;
  }

  lemma UnaryShape(op: UnaryOp, x: Expr, rest: seq<Token>)
    ensures Print(UnaryExpr(op, x)) + rest == [UnaryToken(op)] + ([LParen] + (Print(x) + ([RParen] + rest)))
  {
    hide PrintList, PrintWhens;
  }

  lemma NullTestShape(x: Expr, negated: bool, rest: seq<Token>)
    ensures Print(IsNullExpr(x, negated)) + rest == Print(x) + ([IsTok] + Negation(negated) + [NullLit] + rest)
  {
    hide PrintList, PrintWhens, Negation;
  }

  lemma AggregateShape(kind: AggregateKind, x: Expr, distinct: bool, rest: seq<Token>)
    ensures Print(AggregateExpr(kind, Some(x), distinct, false)) + rest
            == [AggTok(kind), LParen] + (if distinct then [DistinctTok] else []) + (Print(x) + ([RParen] + rest))
  {
    hide PrintList, PrintWhens;
  }

  lemma StarShape(rest: seq<Token>)
    ensures Print(AggregateExpr(COUNT, None, false, true)) + rest == [AggTok(COUNT), LParen, Star, RParen] + rest
  {
    hide PrintList, PrintWhens;
  }

  lemma InShape(x: Expr, values: seq<Expr>, negated: bool, rest: seq<Token>)
    ensures Print(InExpr(x, values, negated)) + rest
            == [LParen] + (Print(x) + (Negation(negated) +
               ([InTok, LParen] + (PrintList(values) + ([RParen] + ([RParen] + rest))))))
  {
    hide PrintList, PrintWhens, Negation;
  }

  lemma Onward(a: seq<Token>, b: seq<Token>, rest: seq<Token>)
    ensures (a + b) + rest == a + (b + rest)
  {
  }

  lemma BetweenShape(x: Expr, low: Expr, high: Expr, negated: bool, rest: seq<Token>)
    ensures Print(BetweenExpr(x, low, high, negated)) + rest
            == [LParen] + (Print(x) + (Negation(negated) +
               ([BetweenTok] + (Print(low) + ([AndTok] + (Print(high) + ([RParen] + rest)))))))
  {
    hide PrintList, PrintWhens, Negation;
    BetweenPrinted(x, low, high, negated);
    BetweenOnward(Print(x), Negation(negated), Print(low), Print(high), rest);
  }

  lemma BetweenPrinted(x: Expr, low: Expr, high: Expr, negated: bool)
    ensures Print(BetweenExpr(x, low, high, negated))
            == [LParen] + Print(x) + Negation(negated) + [BetweenTok] + Print(low) + [AndTok] + Print(high) + [RParen]
  {
    hide PrintList, PrintWhens, Negation;
  }

  lemma BetweenOnward(x: seq<Token>, n: seq<Token>, low: seq<Token>, high: seq<Token>, rest: seq<Token>)
    ensures [LParen] + x + n + [BetweenTok] + low + [AndTok] + high + [RParen] + rest
            == [LParen] + (x + (n + ([BetweenTok] + (low + ([AndTok] + (high + ([RParen] + rest)))))))
  {
    var us := [RParen] + rest;
    var ws := [AndTok] + (high + us);
    Onward([LParen] + x + n + [BetweenTok] + low + [AndTok] + high, [RParen], rest);
    Onward([LParen] + x + n + [BetweenTok] + low + [AndTok], high, us);
    Onward([LParen] + x + n + [BetweenTok] + low, [AndTok], high + us);
    Onward([LParen] + x + n + [BetweenTok], low, ws);
    Onward([LParen] + x + n, [BetweenTok], low + ws);
    Onward([LParen] + x, n, [BetweenTok] + (low + ws));
    Onward([LParen], x, n + ([BetweenTok] + (low + ws)));
  }

  lemma LikeShape(x: Expr, pattern: Expr, negated: bool, rest: seq<Token>)
    ensures Print(LikeExpr(x, pattern, negated)) + rest
            == [LParen] + (Print(x) + (Negation(negated) + ([LikeTok] + (Print(pattern) + ([RParen] + rest)))))
  {
    hide PrintList, PrintWhens, Negation;
  }

  lemma CoalesceShape(args: seq<Expr>, rest: seq<Token>)
    ensures Print(CoalesceExpr(args)) + rest == [CoalesceTok, LParen] + (PrintList(args) + ([RParen] + rest))
  {
    hide PrintList, PrintWhens;
  }

  lemma NullifShape(a: Expr, b: Expr, rest: seq<Token>)
    ensures Print(NullifExpr(a, b)) + rest == [NullifTok, LParen] +
            (Print(a) + ([Comma] + (Print(b) + ([RParen] + rest))))
  {
    hide PrintList, PrintWhens;
  }

  lemma CallShape(name: string, args: seq<Expr>, rest: seq<Token>)
    ensures Print(FunctionCallExpr(name, args)) + rest == [Ident(name), LParen] + (PrintList(args) + ([RParen] + rest))
    ensures PrintList([]) == []
  {
    hide PrintWhens, PrintMore;
  }

  lemma ListShape(es: seq<Expr>, rest: seq<Token>)
    requires es != []
    ensures PrintList(es) + rest == Print(es[0]) + (PrintMore(es[1..]) + rest)
    ensures PrintMore(es) + rest == [Comma] + (Print(es[0]) + (PrintMore(es[1..]) + rest))
    ensures AllWF(es) ==> WF(es[0]) && AllWF(es[1..])
  {
    hide Print, PrintWhens, WF;
    Cat(Print(es[0]), PrintMore(es[1..]), rest);
    Cat([Comma], Print(es[0]) + PrintMore(es[1..]), rest);
    Cat([Comma], Print(es[0]), PrintMore(es[1..]));
  }

  lemma NothingPrinted(rest: seq<Token>)
    ensures PrintMore([]) + rest == rest && PrintWhens([]) + rest == rest
  {
  }

  lemma CaseShape(whens: seq<WhenClause>, otherwise: Option<Expr>, rest: seq<Token>)
    ensures Print(CaseExpr(whens, otherwise)) + rest
            == [CaseTok] + (PrintWhens(whens) + if otherwise.None? then [EndTok] + rest
                                                else [ElseTok] + (Print(otherwise.value) + ([EndTok] + rest)))
  {
    hide PrintList, PrintWhens;
  }

  lemma WhensShape(whens: seq<WhenClause>, rest: seq<Token>)
    requires whens != []
    ensures PrintWhens(whens) + rest == PrintWhen(whens[0]) + (PrintWhens(whens[1..]) + rest)
    ensures WhensWF(whens) ==> WhenWF(whens[0]) && WhensWF(whens[1..])
  {
    hide Print, PrintList, WF, PrintWhen;
  }

  lemma WhenShape(w: WhenClause, rest: seq<Token>)
    ensures PrintWhen(w) + rest == [WhenTok] + (Print(w.cond) + ([ThenTok] + (Print(w.result) + rest)))
  {
    hide Print, PrintList, PrintWhens;
  }

  // ----- the round trip

  lemma OperandWF(e: Expr)
    requires WF(e)
    ensures e.UnaryExpr? ==> WF(e.operand)
    ensures e.LiteralExpr? ==> Level(e) == 0
    ensures e.IsNullExpr? ==> WF(e.expr) && Level(e.expr) <= 1
  {
    hide AllWF, WhensWF;
  }

  predicate Opens(e: Expr, t: Token) {
    && (Level(e) <= 2 ==> t != NotTok)
    && (Level(e) == 0 ==> t != Minus && t != Plus)
    && t != RParen && t != Star && t != DistinctTok && t != Comma
  }

  lemma LiteralOpens(v: Literal)
    requires WF(LiteralExpr(v))
    ensures Opens(LiteralExpr(v), Print(LiteralExpr(v))[0])
  {
    hide PrintList, PrintMore, PrintWhens, AllWF, WhensWF;
  }

  /** The token that opens any other tree. */
  lemma FirstPrinted(e: Expr)
    requires !e.LiteralExpr? && !e.IsNullExpr?
    ensures Print(e)[0] == match e {
              case ColumnRef(table, column) => if table == "" then Ident(column) else Ident(table)
              case UnaryExpr(op, _) => UnaryToken(op)
              case AggregateExpr(kind, _, _, _) => AggTok(kind)
              case CaseExpr(_, _) => CaseTok
              case CoalesceExpr(_) => CoalesceTok
              case NullifExpr(_, _) => NullifTok
              case FunctionCallExpr(name, _) => Ident(name)
              case _ => LParen
            }
  {
    hide PrintList, PrintMore, PrintWhens, WF, AllWF, WhensWF;
  }

  lemma OtherOpens(e: Expr)
    requires !e.LiteralExpr? && !e.IsNullExpr?
    ensures Opens(e, Print(e)[0])
  {
    hide Print, WF, AllWF, WhensWF;
    FirstPrinted(e);
  }

  lemma NullTestOpens(x: Expr, negated: bool)
    requires Opens(x, Print(x)[0]) && Level(x) <= 1
    ensures Opens(IsNullExpr(x, negated), Print(IsNullExpr(x, negated))[0])
  {
    hide PrintList, PrintMore, PrintWhens, WF, AllWF, WhensWF;
  }

  /** Printed trees never start with a token that would change how they are read. */
  lemma {:induction false} FirstToken(e: Expr)
    requires WF(e)
    ensures Opens(e, Print(e)[0])
    decreases e
  {
    hide Print, PrintList, PrintMore, PrintWhens, WF, AllWF, WhensWF, Opens;
    if e.IsNullExpr? {
      OperandWF(e);
      FirstToken(e.expr);
      NullTestOpens(e.expr, e.negated);
    } else if e.LiteralExpr? {
      LiteralOpens(e.value);
    } else {
      OtherOpens(e);
    }
  }

  /** A tree that prints as a primary is read back by the primary rule. */
  lemma {:induction false} Primary(e: Expr, rest: seq<Token>)
    requires WF(e) && Level(e) == 0 && NameEnds(rest)
    ensures Reads(PrimaryRule, Print(e) + rest, e, rest)
    decreases e, 3
  {
    hide Reads, ReadsTest, ReadsList, ReadsMore, ReadsWhens, Print, PrintList, PrintMore, PrintWhens, PrintWhen,
         AllWF, WhensWF;
    match e
    case LiteralExpr(v) => ReadLiteral(v, rest);
    case ColumnRef(table, column) => ReadColumn(table, column, rest);
    case BinaryExpr(op, l, r) => BinaryBack(op, l, r, rest);
    case AggregateExpr(kind, arg, distinct, star) => AggregateBack(kind, arg, distinct, star, rest);
    case CaseExpr(whens, otherwise) => CaseBack(whens, otherwise, rest);
    case InExpr(x, values, negated) => InBack(x, values, negated, rest);
    case BetweenExpr(x, low, high, negated) => BetweenBack(x, low, high, negated, rest);
    case LikeExpr(x, pattern, negated) => LikeBack(x, pattern, negated, rest);
    case CoalesceExpr(args) =>
      ListBack(args, [RParen] + rest);
      ReadCoalesced(PrintList(args) + ([RParen] + rest), args, rest);
      CoalesceShape(args, rest);
    case NullifExpr(a, b) => NullifBack(a, b, rest);
    case FunctionCallExpr(name, args) => CallBack(name, args, rest);
  }

  lemma {:induction false} ProductBack(op: BinaryOp, l: Expr, r: Expr, us: seq<Token>, tail: seq<Token>)
    requires WF(l) && WF(r) && Level(l) <= 1 && Level(r) <= 1 && Ends(tail) && us == Print(r) + tail
    requires op.MulOp? || op.DivOp? || op.ModOp?
    ensures Reads(AdditiveRule, Print(l) + ([OpToken(op)] + us), BinaryExpr(op, l, r), tail)
    decreases BinaryExpr(op, l, r), 0
  {
    hide *;
    var ts, e := Print(l) + ([OpToken(op)] + us), BinaryExpr(op, l, r);
    EndsAll(tail);
    Operator(op, us);
    Operand(l, [OpToken(op)] + us);
    Operand(r, tail);
    ReadProduct(ts, l, op, us, r, tail);
    ClimbSum(ts, e, tail);
  }

  lemma {:induction false} SumBack(op: BinaryOp, l: Expr, r: Expr, us: seq<Token>, tail: seq<Token>)
    requires WF(l) && WF(r) && Level(l) <= 1 && Level(r) <= 1 && Ends(tail) && us == Print(r) + tail
    requires op.AddOp? || op.SubOp? || op.ConcatOp?
    ensures Reads(AdditiveRule, Print(l) + ([OpToken(op)] + us), BinaryExpr(op, l, r), tail)
    decreases BinaryExpr(op, l, r), 0
  {
    hide *;
    EndsAll(tail);
    Operator(op, us);
    Term(l, [OpToken(op)] + us);
    Term(r, tail);
    ReadSum(Print(l) + ([OpToken(op)] + us), l, op, us, r, tail);
  }

  lemma CompareEnds(op: BinaryOp, us: seq<Token>, tail: seq<Token>)
    requires CompareOp(OpToken(op)) == Some(op) && Ends(tail)
    ensures SumEnds([OpToken(op)] + us) && SumEnds(tail) && TestEnds(tail)
  {
    hide *;
    EndsAll(tail);
    Operator(op, us);
  }

  lemma {:induction false} CompareBack(op: BinaryOp, l: Expr, r: Expr, us: seq<Token>, tail: seq<Token>)
    requires WF(l) && WF(r) && Level(l) <= 1 && Level(r) <= 1 && Ends(tail) && us == Print(r) + tail
    requires CompareOp(OpToken(op)) == Some(op)
    ensures Reads(ComparisonRule, Print(l) + ([OpToken(op)] + us), BinaryExpr(op, l, r), tail)
    decreases BinaryExpr(op, l, r), 0
  {
    hide *;
    CompareEnds(op, us, tail);
    Sum(l, [OpToken(op)] + us);
    Sum(r, tail);
    ReadCompare(Print(l) + ([OpToken(op)] + us), l, op, us, r, tail);
  }

  lemma {:induction false} ArithmeticBack(op: BinaryOp, l: Expr, r: Expr, us: seq<Token>, tail: seq<Token>)
    requires WF(l) && WF(r) && Level(l) <= 1 && Level(r) <= 1 && Ends(tail) && us == Print(r) + tail
    requires !op.AndOp? && !op.OrOp?
    ensures Reads(ExpressionRule, Print(l) + ([OpToken(op)] + us), BinaryExpr(op, l, r), tail)
    decreases BinaryExpr(op, l, r), 1
  {
    hide Reads, ReadsTest, ReadsList, ReadsMore, ReadsWhens, Print, PrintList, PrintMore, PrintWhens, PrintWhen, WF,
         AllWF, WhensWF, Ends, TestEnds, SumEnds, TermEnds, NameEnds, OpToken, CompareOp, Negation;
    var ts, e := Print(l) + ([OpToken(op)] + us), BinaryExpr(op, l, r);
    FirstToken(l);
    Operator(op, us);
    if op.MulOp? || op.DivOp? || op.ModOp? {
      ProductBack(op, l, r, us, tail);
      ClimbFromSum(ts, e, tail);
    } else if op.AddOp? || op.SubOp? || op.ConcatOp? {
      SumBack(op, l, r, us, tail);
      ClimbFromSum(ts, e, tail);
    } else {
      CompareBack(op, l, r, us, tail);
      ClimbFromTest(ts, e, tail);
    }
  }

  lemma {:induction false} LogicBack(op: BinaryOp, l: Expr, r: Expr, us: seq<Token>, tail: seq<Token>)
    requires WF(l) && WF(r) && Ends(tail) && us == Print(r) + tail && (op.AndOp? || op.OrOp?)
    ensures Reads(ExpressionRule, Print(l) + ([OpToken(op)] + us), BinaryExpr(op, l, r), tail)
    decreases BinaryExpr(op, l, r), 0
  {
    hide Reads, ReadsTest, ReadsList, ReadsMore, ReadsWhens, Print, PrintList, PrintMore, PrintWhens, PrintWhen, WF,
         AllWF, WhensWF, Ends, TestEnds, SumEnds, TermEnds, NameEnds, OpToken, CompareOp, Negation;
    EndsAll(tail);
    Operator(op, us);
    var ts, e := Print(l) + ([OpToken(op)] + us), BinaryExpr(op, l, r);
    Conjunct(l, [OpToken(op)] + us);
    Conjunct(r, tail);
    if op.AndOp? {
      ReadConjunction(ts, l, us, r, tail);
      ClimbOr(ts, e, tail);
    } else {
      ClimbAnd(ts, l, [OrTok] + us);
      ClimbAnd(us, r, tail);
      ReadDisjunction(ts, l, us, r, tail);
    }
  }

  lemma {:induction false} BinaryBack(op: BinaryOp, l: Expr, r: Expr, rest: seq<Token>)
    requires WF(l) && WF(r) && (op.OrOp? || op.AndOp? || (Level(l) <= 1 && Level(r) <= 1))
    ensures Reads(PrimaryRule, Print(BinaryExpr(op, l, r)) + rest, BinaryExpr(op, l, r), rest)
    decreases BinaryExpr(op, l, r), 2
  {
    hide *;
    Closing(RParen, rest);
    var tail := [RParen] + rest;
    var us := Print(r) + tail;
    if op.AndOp? || op.OrOp? { LogicBack(op, l, r, us, tail); } else { ArithmeticBack(op, l, r, us, tail); }
    ReadParens(Print(l) + ([OpToken(op)] + us), BinaryExpr(op, l, r), rest);
    BinaryShape(op, l, r, rest);
  }

  lemma {:induction false} AggregateBack(kind: AggregateKind, arg: Option<Expr>, distinct: bool, star: bool,
        rest: seq<Token>)
    requires if star then kind.COUNT? && arg.None? && !distinct else arg.Some? && WF(arg.value)
    ensures Reads(PrimaryRule, Print(AggregateExpr(kind, arg, distinct, star)) + rest,
            AggregateExpr(kind, arg, distinct, star), rest)
    decreases AggregateExpr(kind, arg, distinct, star), 1
  {
    hide Reads, ReadsTest, ReadsList, ReadsMore, ReadsWhens, Print, PrintList, PrintMore, PrintWhens, PrintWhen, WF,
         AllWF, WhensWF, Ends, TestEnds, SumEnds, TermEnds, NameEnds, OpToken, CompareOp, Negation;
    Closing(RParen, rest);
    var e := AggregateExpr(kind, arg, distinct, star);
    if star {
      ReadCountStar(rest);
      StarShape(rest);
    } else {
      var us := Print(arg.value) + ([RParen] + rest);
      FirstToken(arg.value);
      Whole(arg.value, [RParen] + rest);
      ReadAggregateOf(kind, distinct, us, arg.value, rest);
      AggregateShape(kind, arg.value, distinct, rest);
    }
  }

  lemma {:induction false} TestBack(e: Expr, x: Expr, negated: bool, us: seq<Token>, rest: seq<Token>)
    requires WF(x) && Level(x) <= 1 && (Starts(us, BetweenTok) || Starts(us, LikeTok) || Starts(us, InTok))
    requires ReadsTest(x, negated, us, e, [RParen] + rest)
    ensures Reads(PrimaryRule, [LParen] + (Print(x) + (Negation(negated) + us)), e, rest)
    decreases x, 8
  {
    hide Reads, ReadsTest, ReadsList, ReadsMore, ReadsWhens, Print, PrintList, PrintMore, PrintWhens, PrintWhen, WF,
         AllWF, WhensWF, Ends, TestEnds, SumEnds, TermEnds, NameEnds, OpToken, CompareOp, Negation;
    Closing(RParen, rest);
    TestWord(negated, us);
    var t := Negation(negated) + us;
    var ts := Print(x) + t;
    FirstToken(x);
    Sum(x, t);
    ReadAnyTest(ts, x, negated, us, e, [RParen] + rest);
    ClimbFromTest(ts, e, [RParen] + rest);
    ReadParens(ts, e, rest);
  }

  lemma {:induction false} InBack(x: Expr, values: seq<Expr>, negated: bool, rest: seq<Token>)
    requires WF(x) && Level(x) <= 1 && values != [] && AllWF(values)
    ensures Reads(PrimaryRule, Print(InExpr(x, values, negated)) + rest, InExpr(x, values, negated), rest)
    decreases InExpr(x, values, negated), 1
  {
    hide Reads, ReadsTest, ReadsList, ReadsMore, ReadsWhens, Print, PrintList, PrintMore, PrintWhens, PrintWhen, WF,
         AllWF, WhensWF, Ends, TestEnds, SumEnds, TermEnds, NameEnds, OpToken, CompareOp, Negation;
    Closing(RParen, [RParen] + rest);
    var e, tail := InExpr(x, values, negated), [RParen] + rest;
    var vs := PrintList(values) + ([RParen] + tail);
    ListBack(values, [RParen] + tail);
    ReadMembers(x, negated, vs, values, tail);
    TestBack(e, x, negated, [InTok, LParen] + vs, rest);
    InShape(x, values, negated, rest);
  }

  lemma {:induction false} BetweenBack(x: Expr, low: Expr, high: Expr, negated: bool, rest: seq<Token>)
    requires WF(x) && WF(low) && WF(high) && Level(x) <= 1 && Level(low) <= 1 && Level(high) <= 1
    ensures Reads(PrimaryRule, Print(BetweenExpr(x, low, high, negated)) + rest, BetweenExpr(x, low, high, negated),
            rest)
    decreases BetweenExpr(x, low, high, negated), 1
  {
    hide Reads, ReadsTest, ReadsList, ReadsMore, ReadsWhens, Print, PrintList, PrintMore, PrintWhens, PrintWhen, WF,
         AllWF, WhensWF, Ends, TestEnds, SumEnds, TermEnds, NameEnds, OpToken, CompareOp, Negation;
    Closing(RParen, rest);
    EndsAll([RParen] + rest);
    TestWord(false, [AndTok] + (Print(high) + ([RParen] + rest)));
    var e, tail := BetweenExpr(x, low, high, negated), [RParen] + rest;
    var vs := Print(high) + tail;
    var us := Print(low) + ([AndTok] + vs);
    Sum(low, [AndTok] + vs);
    Sum(high, tail);
    ReadBounds(x, negated, us, low, vs, high, tail);
    TestBack(e, x, negated, [BetweenTok] + us, rest);
    BetweenShape(x, low, high, negated, rest);
  }

  lemma {:induction false} LikeBack(x: Expr, pattern: Expr, negated: bool, rest: seq<Token>)
    requires WF(x) && WF(pattern) && Level(x) <= 1 && Level(pattern) == 0
    ensures Reads(PrimaryRule, Print(LikeExpr(x, pattern, negated)) + rest, LikeExpr(x, pattern, negated), rest)
    decreases LikeExpr(x, pattern, negated), 1
  {
    hide Reads, ReadsTest, ReadsList, ReadsMore, ReadsWhens, Print, PrintList, PrintMore, PrintWhens, PrintWhen, WF,
         AllWF, WhensWF, Ends, TestEnds, SumEnds, TermEnds, NameEnds, OpToken, CompareOp, Negation;
    Closing(RParen, rest);
    EndsAll([RParen] + rest);
    var e, tail := LikeExpr(x, pattern, negated), [RParen] + rest;
    var us := Print(pattern) + tail;
    Primary(pattern, tail);
    ReadPattern(x, negated, us, pattern, tail);
    TestBack(e, x, negated, [LikeTok] + us, rest);
    LikeShape(x, pattern, negated, rest);
  }

  lemma {:induction false} NullifBack(a: Expr, b: Expr, rest: seq<Token>)
    requires WF(a) && WF(b)
    ensures Reads(PrimaryRule, Print(NullifExpr(a, b)) + rest, NullifExpr(a, b), rest)
    decreases NullifExpr(a, b), 1
  {
    hide *;
    Closing(RParen, rest);
    Closing(Comma, Print(b) + ([RParen] + rest));
    var vs := Print(b) + ([RParen] + rest);
    var us := Print(a) + ([Comma] + vs);
    Whole(a, [Comma] + vs);
    Whole(b, [RParen] + rest);
    ReadNullifOf(us, a, vs, b, rest);
    NullifShape(a, b, rest);
  }

  lemma {:induction false} CallBack(name: string, args: seq<Expr>, rest: seq<Token>)
    requires AllWF(args)
    ensures Reads(PrimaryRule, Print(FunctionCallExpr(name, args)) + rest, FunctionCallExpr(name, args), rest)
    decreases FunctionCallExpr(name, args), 1
  {
    hide Reads, ReadsTest, ReadsList, ReadsMore, ReadsWhens, Print, PrintList, PrintMore, PrintWhens, PrintWhen, WF,
         AllWF, WhensWF, Ends, TestEnds, SumEnds, TermEnds, NameEnds, OpToken, CompareOp, Negation;
    Closing(RParen, rest);
    if args == [] {
      ReadEmptyCall(name, rest);
      CallShape(name, args, rest);
      assert [Ident(name), LParen] + ([] + ([RParen] + rest)) == [Ident(name), LParen, RParen] + rest;
    } else {
      var us := PrintList(args) + ([RParen] + rest);
      ListShape(args, [RParen] + rest);
      FirstToken(args[0]);
      ListBack(args, [RParen] + rest);
      ReadCall(name, us, args, rest);
      CallShape(name, args, rest);
    }
  }

  lemma {:induction false} ListBack(es: seq<Expr>, rest: seq<Token>)
    requires es != [] && AllWF(es) && Ends(rest) && !Starts(rest, Comma)
    ensures ReadsList(PrintList(es) + rest, es, rest)
    decreases es, 1
  {
    hide *;
    ListShape(es, rest);
    var us := PrintMore(es[1..]) + rest;
    MoreBack([es[0]], es[1..], rest);
    Whole(es[0], us);
    assert [es[0]] + es[1..] == es;
    ReadListOf(Print(es[0]) + us, es[0], us, es, rest);
  }

  lemma {:induction false} MoreBack(done: seq<Expr>, es: seq<Expr>, rest: seq<Token>)
    requires AllWF(es) && Ends(rest) && !Starts(rest, Comma)
    ensures ReadsMore(done, PrintMore(es) + rest, done + es, rest)
    ensures Ends(PrintMore(es) + rest)
    decreases es, 0
  {
    hide *;
    if es == [] {
      NothingPrinted(rest);
      ReadNoMore(done, rest);
      assert done + es == done;
    } else {
      Closing(Comma, Print(es[0]) + (PrintMore(es[1..]) + rest));
      ListShape(es, rest);
      var us := PrintMore(es[1..]) + rest;
      MoreBack(done + [es[0]], es[1..], rest);
      Whole(es[0], us);
      assert done + es == (done + [es[0]]) + es[1..];
      ReadOneMore(done, Print(es[0]) + us, es[0], us, done + es, rest);
    }
  }

  lemma {:induction false} CaseBack(whens: seq<WhenClause>, otherwise: Option<Expr>, rest: seq<Token>)
    requires WhensWF(whens) && (otherwise.Some? ==> WF(otherwise.value))
    ensures Reads(PrimaryRule, Print(CaseExpr(whens, otherwise)) + rest, CaseExpr(whens, otherwise), rest)
    decreases CaseExpr(whens, otherwise), 1
  {
    hide Reads, ReadsTest, ReadsList, ReadsMore, ReadsWhens, Print, PrintList, PrintMore, PrintWhens, PrintWhen, WF,
         AllWF, WhensWF, Ends, TestEnds, SumEnds, TermEnds, NameEnds, OpToken, CompareOp, Negation;
    Closing(EndTok, rest);
    var e := CaseExpr(whens, otherwise);
    if otherwise.None? {
      WhensBack([], whens, [EndTok] + rest);
      assert [] + whens == whens;
      ReadCaseEnd(PrintWhens(whens) + ([EndTok] + rest), whens, rest);
      CaseShape(whens, otherwise, rest);
    } else {
      var us := Print(otherwise.value) + ([EndTok] + rest);
      Whole(otherwise.value, [EndTok] + rest);
      Closing(ElseTok, us);
      WhensBack([], whens, [ElseTok] + us);
      assert [] + whens == whens;
      ReadCaseElse(PrintWhens(whens) + ([ElseTok] + us), whens, us, otherwise.value, rest);
      CaseShape(whens, otherwise, rest);
    }
  }

  lemma {:induction false} WhensBack(done: seq<WhenClause>, whens: seq<WhenClause>, rest: seq<Token>)
    requires WhensWF(whens) && Ends(rest) && !Starts(rest, WhenTok)
    ensures ReadsWhens(done, PrintWhens(whens) + rest, done + whens, rest)
    ensures Ends(PrintWhens(whens) + rest)
    decreases whens, 0
  {
    hide *;
    if whens == [] {
      NothingPrinted(rest);
      ReadNoWhen(done, rest);
      assert done + whens == done;
    } else {
      WhensShape(whens, rest);
      WhensBack(done + [whens[0]], whens[1..], rest);
      assert done + whens == (done + [whens[0]]) + whens[1..];
      WhenShape(whens[0], PrintWhens(whens[1..]) + rest);
      Closing(WhenTok, Print(whens[0].cond) + ([ThenTok] + (Print(whens[0].result) + (PrintWhens(whens[1..]) + rest))));
      OneWhenBack(done, whens[0], PrintWhens(whens[1..]) + rest, done + whens, rest);
    }
  }

  lemma {:induction false} OneWhenBack(done: seq<WhenClause>, w: WhenClause, vs: seq<Token>, all: seq<WhenClause>,
        rest: seq<Token>)
    requires WhenWF(w) && Ends(vs) && ReadsWhens(done + [w], vs, all, rest)
    ensures ReadsWhens(done, PrintWhen(w) + vs, all, rest)
    decreases w, 0
  {
    hide Reads, ReadsTest, ReadsList, ReadsMore, ReadsWhens, Print, PrintList, PrintMore, PrintWhens, PrintWhen, WF,
         AllWF, WhensWF, Ends, TestEnds, SumEnds, TermEnds, NameEnds, OpToken, CompareOp, Negation;
    var us := Print(w.result) + vs;
    var ts := Print(w.cond) + ([ThenTok] + us);
    Closing(ThenTok, us);
    Whole(w.cond, [ThenTok] + us);
    Whole(w.result, vs);
    ReadOneWhen(done, ts, w.cond, us, w.result, vs, all, rest);
    WhenShape(w, vs);
  }

  lemma {:induction false} Operand(e: Expr, rest: seq<Token>)
    requires WF(e) && Level(e) <= 1 && NameEnds(rest)
    ensures Reads(UnaryRule, Print(e) + rest, e, rest)
    decreases e, 4
  {
    hide Reads, ReadsTest, ReadsList, ReadsMore, ReadsWhens, Print, PrintList, PrintMore, PrintWhens, PrintWhen, WF,
         AllWF, WhensWF, Ends, TestEnds, SumEnds, TermEnds, NameEnds, OpToken, CompareOp, Negation;
    EndsAll(rest);
    OperandWF(e);
    FirstToken(e);
    if e.UnaryExpr? {
      Parens(e.operand, rest);
      var inner := [LParen] + (Print(e.operand) + ([RParen] + rest));
      UnsignedIsOperand(inner, e.operand, rest);
      ReadSigned(e.uop, inner, e.operand, rest);
      UnaryShape(e.uop, e.operand, rest);
    } else {
      Primary(e, rest);
      UnsignedIsOperand(Print(e) + rest, e, rest);
    }
  }

  lemma {:induction false} Parens(x: Expr, rest: seq<Token>)
    requires WF(x)
    ensures Reads(PrimaryRule, [LParen] + (Print(x) + ([RParen] + rest)), x, rest)
    decreases x, 11
  {
    hide *;
    Closing(RParen, rest);
    Whole(x, [RParen] + rest);
    ReadParens(Print(x) + ([RParen] + rest), x, rest);
  }

  lemma {:induction false} Term(e: Expr, rest: seq<Token>)
    requires WF(e) && Level(e) <= 1 && TermEnds(rest)
    ensures Reads(MultiplicativeRule, Print(e) + rest, e, rest)
    decreases e, 6
  {
    hide *;
    EndsAll(rest);
    Operand(e, rest);
    ClimbTerm(Print(e) + rest, e, rest);
  }

  lemma {:induction false} Sum(e: Expr, rest: seq<Token>)
    requires WF(e) && Level(e) <= 1 && SumEnds(rest)
    ensures Reads(AdditiveRule, Print(e) + rest, e, rest)
    decreases e, 7
  {
    hide *;
    EndsAll(rest);
    Term(e, rest);
    ClimbSum(Print(e) + rest, e, rest);
  }

  lemma {:induction false} Test(e: Expr, rest: seq<Token>)
    requires WF(e) && Level(e) <= 2 && TestEnds(rest)
    ensures Reads(ComparisonRule, Print(e) + rest, e, rest)
    decreases e, 8
  {
    hide Reads, ReadsTest, ReadsList, ReadsMore, ReadsWhens, Print, PrintList, PrintMore, PrintWhens, PrintWhen, WF,
         AllWF, WhensWF, Ends, TestEnds, SumEnds, TermEnds, NameEnds, OpToken, CompareOp, Negation;
    EndsAll(rest);
    OperandWF(e);
    if e.IsNullExpr? {
      var us := [IsTok] + Negation(e.negated) + [NullLit] + rest;
      TestWord(false, us);
      Sum(e.expr, us);
      ReadNullTest(Print(e.expr) + us, e.expr, e.negated, rest);
      NullTestShape(e.expr, e.negated, rest);
    } else {
      Sum(e, rest);
      ClimbTest(Print(e) + rest, e, rest);
    }
  }

  lemma {:induction false} Conjunct(e: Expr, rest: seq<Token>)
    requires WF(e) && TestEnds(rest)
    ensures Reads(NotRule, Print(e) + rest, e, rest)
    decreases e, 9
  {
    hide Reads, ReadsTest, ReadsList, ReadsMore, ReadsWhens, Print, PrintList, PrintMore, PrintWhens, PrintWhen, WF,
         AllWF, WhensWF, Ends, TestEnds, SumEnds, TermEnds, NameEnds, OpToken, CompareOp, Negation;
    EndsAll(rest);
    OperandWF(e);
    if e.UnaryExpr? && e.uop.NotOp? {
      var inner := [LParen] + (Print(e.operand) + ([RParen] + rest));
      Parens(e.operand, rest);
      ParenthesesAreATest(inner, e.operand, rest);
      ReadNegated(inner, e.operand, rest);
      UnaryShape(NotOp, e.operand, rest);
    } else {
      FirstToken(e);
      Test(e, rest);
      ClimbNot(Print(e) + rest, e, rest);
    }
  }

  lemma UnsignedIsOperand(ts: seq<Token>, e: Expr, rest: seq<Token>)
    requires Reads(PrimaryRule, ts, e, rest) && !Starts(ts, Minus) && !Starts(ts, Plus)
    ensures Reads(UnaryRule, ts, e, rest)
  {
    hide ReadExpression, ReadAnd, ReadNot, ReadComparison, ReadAdditive, ReadMultiplicative, ReadPrimary;
  }

  lemma ParenthesesAreATest(ts: seq<Token>, e: Expr, rest: seq<Token>)
    requires Reads(PrimaryRule, ts, e, rest) && Starts(ts, LParen) && TestEnds(rest)
    ensures Reads(NotRule, ts, e, rest)
  {
    UnsignedIsOperand(ts, e, rest);
    ClimbTerm(ts, e, rest);
    ClimbSum(ts, e, rest);
    ClimbTest(ts, e, rest);
    ClimbNot(ts, e, rest);
  }

  /** A printed well-formed expression, followed by a token that does not continue it, is read back as itself, and
      nothing after it is touched. */
  lemma {:induction false} Whole(e: Expr, rest: seq<Token>)
    requires WF(e) && Ends(rest)
    ensures Reads(ExpressionRule, Print(e) + rest, e, rest)
    decreases e, 10
  {
    hide *;
    EndsAll(rest);
    Conjunct(e, rest);
    ClimbFromNot(Print(e) + rest, e, rest);
  }

  // ----- what the exclusions are for

  lemma NotShape(op: BinaryOp, x: Expr, r: Expr, rest: seq<Token>)
    ensures Print(BinaryExpr(op, UnaryExpr(NotOp, x), r)) + rest
            == [LParen] + ([NotTok] + ([LParen] +
               (Print(x) + ([RParen] + ([OpToken(op)] + (Print(r) + ([RParen] + rest)))))))
  {
    BinaryShape(op, UnaryExpr(NotOp, x), r, rest);
    UnaryShape(NotOp, x, [OpToken(op)] + (Print(r) + ([RParen] + rest)));
  }

  /** Any operand that was read, an operator other than AND and OR, and a well-formed right side make a comparison. */
  lemma OperatorBack(op: BinaryOp, ts: seq<Token>, x: Expr, r: Expr, us: seq<Token>, tail: seq<Token>)
    requires Reads(UnaryRule, ts, x, [OpToken(op)] + us) && us == Print(r) + tail
    requires WF(r) && Level(r) <= 1 && Ends(tail) && !op.AndOp? && !op.OrOp?
    ensures Reads(ComparisonRule, ts, BinaryExpr(op, x, r), tail)
  {
    hide *;
    var e := BinaryExpr(op, x, r);
    EndsAll(tail);
    Operator(op, us);
    EndsAll([OpToken(op)] + us);
    if op.MulOp? || op.DivOp? || op.ModOp? {
      Operand(r, tail);
      ReadProduct(ts, x, op, us, r, tail);
      ClimbSum(ts, e, tail);
      ClimbTest(ts, e, tail);
    } else if op.AddOp? || op.SubOp? || op.ConcatOp? {
      ClimbTerm(ts, x, [OpToken(op)] + us);
      Term(r, tail);
      ReadSum(ts, x, op, us, r, tail);
      ClimbTest(ts, e, tail);
    } else {
      ClimbTerm(ts, x, [OpToken(op)] + us);
      ClimbSum(ts, x, [OpToken(op)] + us);
      Sum(r, tail);
      ReadCompare(ts, x, op, us, r, tail);
    }
  }

  /** NOT as the left operand of an operator other than AND and OR is read back as the negation of the whole. */
  lemma NotIsPulledOut(op: BinaryOp, x: Expr, r: Expr, rest: seq<Token>)
    requires WF(x) && WF(r) && Level(r) <= 1 && !op.AndOp? && !op.OrOp? && NameEnds(rest)
    ensures Reads(PrimaryRule, Print(BinaryExpr(op, UnaryExpr(NotOp, x), r)) + rest,
                  UnaryExpr(NotOp, BinaryExpr(op, x, r)), rest)
  {
    hide Reads, ReadsTest, ReadsList, ReadsMore, ReadsWhens, Print, PrintList, PrintMore, PrintWhens, PrintWhen,
         AllWF, WhensWF;
    var tail := [RParen] + rest;
    var us := Print(r) + tail;
    var ts := [LParen] + (Print(x) + ([RParen] + ([OpToken(op)] + us)));
    Closing(RParen, rest);
    Parens(x, [OpToken(op)] + us);
    UnsignedIsOperand(ts, x, [OpToken(op)] + us);
    OperatorBack(op, ts, x, r, us, tail);
    ClimbNot(ts, BinaryExpr(op, x, r), tail);
    ReadNegated(ts, BinaryExpr(op, x, r), tail);
    ClimbFromNot([NotTok] + ts, UnaryExpr(NotOp, BinaryExpr(op, x, r)), tail);
    ReadParens([NotTok] + ts, UnaryExpr(NotOp, BinaryExpr(op, x, r)), rest);
    NotShape(op, x, r, rest);
  }

  /** Of two NULL tests in a row only the first is read; the second is left over. */
  lemma SecondNullTestIsLeftOver(x: Expr, first: bool, second: bool, rest: seq<Token>)
    requires WF(x) && Level(x) <= 1
    ensures Reads(ComparisonRule, Print(IsNullExpr(IsNullExpr(x, first), second)) + rest,
                  IsNullExpr(x, first), [IsTok] + Negation(second) + [NullLit] + rest)
  {
    hide Reads, ReadsTest, ReadsList, ReadsMore, ReadsWhens, Print, PrintList, PrintMore, PrintWhens, PrintWhen,
         AllWF, WhensWF;
    var left := [IsTok] + Negation(second) + [NullLit] + rest;
    var us := [IsTok] + Negation(first) + [NullLit] + left;
    TestWord(false, us);
    Sum(x, us);
    ReadNullTest(Print(x) + us, x, first, left);
    NullTestShape(IsNullExpr(x, first), second, rest);
    NullTestShape(x, first, left);
  }

  /** A negative number is read back as a minus sign applied to a number. */
  lemma NegativeNumberIsSigned(v: Literal, rest: seq<Token>)
    requires Signed(v)
    ensures Reads(UnaryRule, Print(LiteralExpr(v)) + rest, UnaryExpr(NegOp, LiteralExpr(ReadAs(Unsigned(v)))), rest)
  {
    hide Reads, PrintList, PrintWhens, Spelled, Nearest, ReadAs;
    var inner := PrintLiteral(Unsigned(v)) + rest;
    ReadLiteral(Unsigned(v), rest);
    assert Print(LiteralExpr(Unsigned(v))) == PrintLiteral(Unsigned(v));
    UnsignedIsOperand(inner, LiteralExpr(ReadAs(Unsigned(v))), rest);
    ReadSigned(NegOp, inner, LiteralExpr(ReadAs(Unsigned(v))), rest);
    assert Print(LiteralExpr(v)) + rest == [Minus] + inner;
  }

  /** A signed LIKE pattern is not read back at all. */
  lemma SignedPatternFails(x: Expr, op: UnaryOp, p: Expr, rest: seq<Token>)
    requires WF(x) && Level(x) <= 1 && !op.NotOp?
    ensures ReadComparison(Print(x) + ([LikeTok] + (Print(UnaryExpr(op, p)) + ([RParen] + rest)))) == Fail
  {
    hide Reads, ReadsTest, ReadsList, ReadsMore, ReadsWhens, Print, PrintList, PrintMore, PrintWhens, PrintWhen,
         AllWF, WhensWF;
    var us := Print(UnaryExpr(op, p)) + ([RParen] + rest);
    TestWord(false, [LikeTok] + us);
    Sum(x, [LikeTok] + us);
    SignIsNoPrimary(op, p, [RParen] + rest);
    FailedPattern(Print(x) + ([LikeTok] + us), x, us);
  }

  lemma SignIsNoPrimary(op: UnaryOp, p: Expr, rest: seq<Token>)
    requires !op.NotOp?
    ensures ReadPrimary(Print(UnaryExpr(op, p)) + rest) == Fail
  {
    hide PrintList, PrintWhens;
  }

  lemma FailedPattern(ts: seq<Token>, x: Expr, us: seq<Token>)
    requires Reads(AdditiveRule, ts, x, [LikeTok] + us) && ReadPrimary(us) == Fail
    ensures ReadComparison(ts) == Fail
  {
    hide ReadExpression, ReadAnd, ReadNot, ReadComparison, ReadAdditive, ReadMultiplicative, ReadUnary, ReadPrimary;
    var t := [LikeTok] + us;
    assert t[1..] == us;
    NotCompared(ts, x, t);
    assert ReadTest(x, false, t) == Fail;
    assert ReadPostfix(x, t) == Fail;
  }
}
