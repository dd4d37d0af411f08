/** The expression grammar as a relation: which token sequences spell a tree, by precedence and associativity, with any
    parentheses around any part. The parser accepts exactly these. */
module SqlSpelling {
  import opened Wrappers
  import opened Numbers
  import opened SqlAst
  import opened SqlGrammar
  import opened SqlRoundTrip

  // ----- precedence

  /** From the loosest binding to the tightest: OR, AND, NOT, tests, comparisons, sums, products, signs, the rest. */
  function OpPrecedence(op: BinaryOp): nat {
    match op
    case OrOp => 0
    case AndOp => 1
    case EqOp => 4 case NeOp => 4 case LtOp => 4 case GtOp => 4 case LeOp => 4 case GeOp => 4
    case AddOp => 5 case SubOp => 5 case ConcatOp => 5
    case MulOp => 6 case DivOp => 6 case ModOp => 6
  }

  function SignPrecedence(op: UnaryOp): nat { if op.NotOp? then 2 else 7 }

  function Precedence(e: Expr): nat {
    match e
    case BinaryExpr(op, _, _) => OpPrecedence(op)
    case UnaryExpr(op, _) => SignPrecedence(op)
    case IsNullExpr(_, _) => 3
    case InExpr(_, _, _) => 3
    case BetweenExpr(_, _, _, _) => 3
    case LikeExpr(_, _, _) => 3
    case _ => 8
  }

  /** All operators associate to the left; comparisons do not associate. */
  function LeftLevel(op: BinaryOp): nat { if OpPrecedence(op) == 4 then 5 else OpPrecedence(op) }

  function RightLevel(op: BinaryOp): nat { OpPrecedence(op) + 1 }

  // ----- what spells a tree

  function InParens(p: seq<Token>): seq<Token> { [LParen] + p + [RParen] }

  /** The tokens spell the tree where at least precedence k is asked for. */
  ghost predicate Spells(e: Expr, k: nat, ts: seq<Token>)
    decreases e, |ts|, 1
  {
    (k <= Precedence(e) && Bare(e, ts)) || exists p :: ts == InParens(p) && Spells(e, 0, p)
  }

  predicate LiteralToken(t: Token, v: Literal) {
    match t
    case IntLit(n) => v == IntLiteral(n)
    case FloatLit(size) => v == FloatLiteral(Nearest(size))
    case StrLit(s) => v == StringLiteral(s)
    case TrueLit => v == BoolLiteral(true)
    case FalseLit => v == BoolLiteral(false)
    case NullLit => v == NullLiteral
    case _ => false
  }

  /** Without parentheses around the whole. */
  ghost predicate Bare(e: Expr, ts: seq<Token>)
    decreases e, |ts|, 0
  {
    match e
    case LiteralExpr(v) => |ts| == 1 && LiteralToken(ts[0], v)
    case ColumnRef(table, column) =>
      ts == [Ident(table), Dot, Ident(column)] || (table == "" && ts == [Ident(column)])
    case BinaryExpr(op, l, r) =>
      exists p, q :: ts == p + [OpToken(op)] + q && Spells(l, LeftLevel(op), p) && Spells(r, RightLevel(op), q)
    case UnaryExpr(op, x) => exists p :: ts == [UnaryToken(op)] + p && Spells(x, SignPrecedence(op), p)
    case IsNullExpr(x, negated) => exists p :: ts == p + NullTest(negated) && Spells(x, 4, p)
    case InExpr(x, values, negated) =>
      exists p, q :: ts == p + TestTokens(negated, InTok) + InParens(q) && Spells(x, 4, p) && ListSpells(values, q)
    case BetweenExpr(x, low, high, negated) =>
      exists p, q, r :: ts == p + TestTokens(negated, BetweenTok) + (q + [AndTok] + r)
                        && Spells(x, 4, p) && Spells(low, 5, q) && Spells(high, 5, r)
    case LikeExpr(x, pattern, negated) =>
      exists p, q :: ts == p + TestTokens(negated, LikeTok) + q && Spells(x, 4, p) && Spells(pattern, 8, q)
    case AggregateExpr(kind, arg, distinct, star) =>
      if star then e == AggregateExpr(COUNT, None, false, true) && ts == [AggTok(COUNT)] + InParens([Star])
      else arg.Some?
           && exists p :: ts == [AggTok(kind)] + InParens(Distinct(distinct) + p) && Spells(arg.value, 0, p)
    case CaseExpr(whens, otherwise) =>
      if otherwise.None? then exists p :: ts == [CaseTok] + p + [EndTok] && WhensSpell(whens, p)
      else exists p, q :: ts == [CaseTok] + p + ([ElseTok] + q) + [EndTok] && WhensSpell(whens, p)
                          && Spells(otherwise.value, 0, q)
    case CoalesceExpr(args) => exists p :: ts == [CoalesceTok] + InParens(p) && ListSpells(args, p)
    case NullifExpr(a, b) =>
      exists p, q :: ts == [NullifTok] + InParens(p + [Comma] + q) && Spells(a, 0, p) && Spells(b, 0, q)
    case FunctionCallExpr(name, args) =>
      exists p :: ts == [Ident(name)] + InParens(p) && if args == [] then p == [] else ListSpells(args, p)
  }

  function NullTest(negated: bool): seq<Token> { [IsTok] + Negation(negated) + [NullLit] }

  function TestTokens(negated: bool, word: Token): seq<Token> { Negation(negated) + [word] }

  function Distinct(distinct: bool): seq<Token> { if distinct then [DistinctTok] else [] }

  /** One or more items with commas between them. */
  ghost predicate ListSpells(es: seq<Expr>, ts: seq<Token>)
    decreases es, |ts|, 2
  {
    es != [] && if |es| == 1 then Spells(es[0], 0, ts)
                else exists p, q :: ts == p + [Comma] + q && Spells(es[0], 0, p) && ListSpells(es[1..], q)
  }

  ghost predicate WhensSpell(whens: seq<WhenClause>, ts: seq<Token>)
    decreases whens, |ts|, 2
  {
    if whens == [] then ts == []
    else exists p, q :: ts == p + q && WhenSpells(whens[0], p) && WhensSpell(whens[1..], q)
  }

  ghost predicate WhenSpells(w: WhenClause, ts: seq<Token>)
    decreases w, |ts|, 2
  {
    exists p, q :: ts == [WhenTok] + p + [ThenTok] + q && Spells(w.cond, 0, p) && Spells(w.result, 0, q)
  }

  // ----- putting spellings together

  lemma Weaker(e: Expr, k: nat, j: nat, ts: seq<Token>)
    requires Spells(e, k, ts) && j <= k
    ensures Spells(e, j, ts)
  {
    hide Bare, InParens;
  }

  lemma SpellWrapped(e: Expr, k: nat, p: seq<Token>)
    requires Spells(e, 0, p)
    ensures Spells(e, k, InParens(p))
  {
    hide Bare, InParens;
  }

  lemma SpellBare(e: Expr, k: nat, ts: seq<Token>)
    requires Bare(e, ts) && k <= Precedence(e)
    ensures Spells(e, k, ts)
  {
    hide Bare, InParens;
  }

  lemma SpellBinary(op: BinaryOp, l: Expr, r: Expr, k: nat, p: seq<Token>, q: seq<Token>)
    requires Spells(l, LeftLevel(op), p) && Spells(r, RightLevel(op), q) && k <= OpPrecedence(op)
    ensures Spells(BinaryExpr(op, l, r), k, p + [OpToken(op)] + q)
  {
    hide Spells, OpPrecedence, OpToken;
    assert Bare(BinaryExpr(op, l, r), p + [OpToken(op)] + q);
    SpellBare(BinaryExpr(op, l, r), k, p + [OpToken(op)] + q);
  }

  lemma SpellUnary(op: UnaryOp, x: Expr, p: seq<Token>)
    requires Spells(x, SignPrecedence(op), p)
    ensures Spells(UnaryExpr(op, x), SignPrecedence(op), [UnaryToken(op)] + p)
  {
    hide Spells, UnaryToken;
    SpellBare(UnaryExpr(op, x), SignPrecedence(op), [UnaryToken(op)] + p);
  }

  lemma SpellNullTest(x: Expr, negated: bool, p: seq<Token>)
    requires Spells(x, 4, p)
    ensures Spells(IsNullExpr(x, negated), 3, p + NullTest(negated))
  {
    hide Spells, NullTest;
    SpellBare(IsNullExpr(x, negated), 3, p + NullTest(negated));
  }

  lemma SpellIn(x: Expr, values: seq<Expr>, negated: bool, p: seq<Token>, q: seq<Token>)
    requires Spells(x, 4, p) && ListSpells(values, q)
    ensures Spells(InExpr(x, values, negated), 3, p + TestTokens(negated, InTok) + InParens(q))
  {
    hide Spells, ListSpells, TestTokens, InParens;
    SpellBare(InExpr(x, values, negated), 3, p + TestTokens(negated, InTok) + InParens(q));
  }

  lemma SpellBetween(x: Expr, low: Expr, high: Expr, negated: bool, p: seq<Token>, q: seq<Token>, r: seq<Token>)
    requires Spells(x, 4, p) && Spells(low, 5, q) && Spells(high, 5, r)
    ensures Spells(BetweenExpr(x, low, high, negated), 3, p + TestTokens(negated, BetweenTok) + (q + [AndTok] + r))
  {
    hide Spells, TestTokens;
    SpellBare(BetweenExpr(x, low, high, negated), 3, p + TestTokens(negated, BetweenTok) + (q + [AndTok] + r));
  }

  lemma SpellLike(x: Expr, pattern: Expr, negated: bool, p: seq<Token>, q: seq<Token>)
    requires Spells(x, 4, p) && Spells(pattern, 8, q)
    ensures Spells(LikeExpr(x, pattern, negated), 3, p + TestTokens(negated, LikeTok) + q)
  {
    hide Spells, TestTokens;
    SpellBare(LikeExpr(x, pattern, negated), 3, p + TestTokens(negated, LikeTok) + q);
  }

  lemma SpellAggregate(kind: AggregateKind, x: Expr, distinct: bool, p: seq<Token>)
    requires Spells(x, 0, p)
    ensures Spells(AggregateExpr(kind, Some(x), distinct, false), 8,
                   [AggTok(kind)] + InParens(Distinct(distinct) + p))
  {
    hide Spells, InParens, Distinct;
    SpellBare(AggregateExpr(kind, Some(x), distinct, false), 8, [AggTok(kind)] + InParens(Distinct(distinct) + p));
  }

  lemma SpellStar()
    ensures Spells(AggregateExpr(COUNT, None, false, true), 8, [AggTok(COUNT)] + InParens([Star]))
  {
    hide Spells, InParens;
    SpellBare(AggregateExpr(COUNT, None, false, true), 8, [AggTok(COUNT)] + InParens([Star]));
  }

  lemma SpellCoalesce(args: seq<Expr>, p: seq<Token>)
    requires ListSpells(args, p)
    ensures Spells(CoalesceExpr(args), 8, [CoalesceTok] + InParens(p))
  {
    hide Spells, ListSpells, InParens;
    SpellBare(CoalesceExpr(args), 8, [CoalesceTok] + InParens(p));
  }

  lemma SpellCall(name: string, args: seq<Expr>, p: seq<Token>)
    requires if args == [] then p == [] else ListSpells(args, p)
    ensures Spells(FunctionCallExpr(name, args), 8, [Ident(name)] + InParens(p))
  {
    hide Spells, ListSpells, InParens;
    SpellBare(FunctionCallExpr(name, args), 8, [Ident(name)] + InParens(p));
  }

  lemma SpellNullif(a: Expr, b: Expr, p: seq<Token>, q: seq<Token>)
    requires Spells(a, 0, p) && Spells(b, 0, q)
    ensures Spells(NullifExpr(a, b), 8, [NullifTok] + InParens(p + [Comma] + q))
  {
    hide Spells, InParens;
    SpellBare(NullifExpr(a, b), 8, [NullifTok] + InParens(p + [Comma] + q));
  }

  lemma SpellCase(whens: seq<WhenClause>, p: seq<Token>)
    requires WhensSpell(whens, p)
    ensures Spells(CaseExpr(whens, None), 8, [CaseTok] + p + [EndTok])
  {
    hide Spells, WhensSpell;
    SpellBare(CaseExpr(whens, None), 8, [CaseTok] + p + [EndTok]);
  }

  lemma SpellCaseElse(whens: seq<WhenClause>, x: Expr, p: seq<Token>, q: seq<Token>)
    requires WhensSpell(whens, p) && Spells(x, 0, q)
    ensures Spells(CaseExpr(whens, Some(x)), 8, [CaseTok] + p + ([ElseTok] + q) + [EndTok])
  {
    hide Spells, WhensSpell;
    SpellBare(CaseExpr(whens, Some(x)), 8, [CaseTok] + p + ([ElseTok] + q) + [EndTok]);
  }

  lemma SpellOne(x: Expr, p: seq<Token>)
    requires Spells(x, 0, p)
    ensures ListSpells([x], p)
  {
    hide Spells;
  }

  lemma SpellFirst(x: Expr, es: seq<Expr>, p: seq<Token>, q: seq<Token>)
    requires Spells(x, 0, p) && ListSpells(es, q)
    ensures ListSpells([x] + es, p + [Comma] + q)
  {
    hide Spells;
    assert ([x] + es)[1..] == es && es != [];
  }

  /** The first comma between items. */
  lemma ListSplit(es: seq<Expr>, ts: seq<Token>) returns (p: seq<Token>, q: seq<Token>)
    requires ListSpells(es, ts) && |es| > 1
    ensures ts == p + [Comma] + q && Spells(es[0], 0, p) && ListSpells(es[1..], q)
  {
    hide Spells;
    p, q :| ts == p + [Comma] + q && Spells(es[0], 0, p) && ListSpells(es[1..], q);
  }

  lemma ListOne(es: seq<Expr>, p: seq<Token>)
    requires ListSpells(es, p)
    ensures es != [] && (|es| == 1 ==> Spells(es[0], 0, p))
  {
    hide Spells;
  }

  lemma {:induction false} SpellLast(es: seq<Expr>, x: Expr, p: seq<Token>, q: seq<Token>)
    requires ListSpells(es, p) && Spells(x, 0, q)
    ensures ListSpells(es + [x], p + [Comma] + q)
    decreases |es|
  {
    hide Spells, ListSpells;
    SpellOne(x, q);
    ListOne(es, p);
    if |es| == 1 {
      assert es == [es[0]];
      SpellFirst(es[0], [x], p, q);
    } else {
      var a, b := ListSplit(es, p);
      SpellLast(es[1..], x, b, q);
      SpellFirst(es[0], es[1..] + [x], a, b + [Comma] + q);
      assert [es[0]] + (es[1..] + [x]) == es + [x];
      Regrouped(a, Comma, b, [Comma] + q);
      Cat(p, [Comma], q);
      Cat(b, [Comma], q);
    }
  }

  lemma Regrouped(a: seq<Token>, t: Token, b: seq<Token>, c: seq<Token>)
    ensures (a + [t] + b) + c == a + [t] + (b + c)
  {
  }

  lemma SpellWhen(c: Expr, x: Expr, p: seq<Token>, q: seq<Token>)
    requires Spells(c, 0, p) && Spells(x, 0, q)
    ensures WhenSpells(WhenClause(c, x), [WhenTok] + p + [ThenTok] + q)
  {
    hide Spells;
  }

  lemma {:induction false} SpellLastWhen(whens: seq<WhenClause>, w: WhenClause, p: seq<Token>, q: seq<Token>)
    requires WhensSpell(whens, p) && WhenSpells(w, q)
    ensures WhensSpell(whens + [w], p + q)
    decreases |whens|
  {
    hide WhenSpells;
    var all := whens + [w];
    if whens == [] {
      assert all[1..] == [] && p + q == q + [];
    } else {
      var a, b :| p == a + b && WhenSpells(whens[0], a) && WhensSpell(whens[1..], b);
      SpellLastWhen(whens[1..], w, b, q);
      assert all[1..] == whens[1..] + [w];
      Cat(a, b, q);
    }
  }

  // ----- tokens cut where the parser stops

  lemma Enclosed(ts: seq<Token>, p: seq<Token>, rest: seq<Token>)
    requires Starts(ts, LParen) && ts[1..] == p + rest && Starts(rest, RParen)
    ensures ts == InParens(p) + rest[1..]
  {
  }

  lemma Headed(word: Token, ts: seq<Token>, p: seq<Token>, rest: seq<Token>)
    requires Starts(ts, word) && ts[1..] == p + rest
    ensures ts == ([word] + p) + rest
  {
  }

  lemma Linked(ts: seq<Token>, p: seq<Token>, t: Token, us: seq<Token>, q: seq<Token>, rest: seq<Token>)
    requires ts == p + us && Starts(us, t) && us[1..] == q + rest
    ensures ts == (p + [t] + q) + rest
  {
  }

  lemma Joined(p: seq<Token>, negated: bool, word: Token, ts: seq<Token>, q: seq<Token>, rest: seq<Token>)
    requires Starts(ts, word) && ts[1..] == q + rest
    ensures p + (Negation(negated) + ts) == p + TestTokens(negated, word) + q + rest
  {
    hide Negation;
  }

  // ----- what the parser accepts is spelled so

  lemma {:induction false} ExpressionSpelled(ts: seq<Token>) returns (p: seq<Token>)
    ensures var r := ReadExpression(ts); r.Got? ==> ts == p + r.rest && Spells(r.value, 0, p)
    decreases |ts|, 10
  {
    p := OrSpelled(ts);
  }

  lemma {:induction false} OrSpelled(ts: seq<Token>) returns (p: seq<Token>)
    ensures var r := ReadOr(ts); r.Got? ==> ts == p + r.rest && Spells(r.value, 0, p)
    decreases |ts|, 9
  {
    hide Spells, ReadAnd, ReadOrTail;
    var l := ReadAnd(ts);
    p := AndSpelled(ts);
    if l.Got? {
      Weaker(l.value, 1, 0, p);
      p := OrTailSpelled(p, l.value, l.rest);
    }
  }

  lemma {:induction false} OrTailSpelled(q: seq<Token>, left: Expr, ts: seq<Token>) returns (p: seq<Token>)
    requires Spells(left, 0, q)
    ensures var r := ReadOrTail(left, ts); r.Got? ==> q + ts == p + r.rest && Spells(r.value, 0, p)
    decreases |ts|, 8
  {
    hide Spells, ReadAnd;
    p := q;
    if Starts(ts, OrTok) {
      var x := ReadAnd(ts[1..]);
      var b := AndSpelled(ts[1..]);
      if x.Got? {
        SpellBinary(OrOp, left, x.value, 0, q, b);
        assert q + ts == q + [OrTok] + b + x.rest;
        p := OrTailSpelled(q + [OrTok] + b, BinaryExpr(OrOp, left, x.value), x.rest);
      }
    }
  }

  lemma {:induction false} AndSpelled(ts: seq<Token>) returns (p: seq<Token>)
    ensures var r := ReadAnd(ts); r.Got? ==> ts == p + r.rest && Spells(r.value, 1, p)
    decreases |ts|, 8
  {
    hide Spells, ReadNot, ReadAndTail;
    var l := ReadNot(ts);
    p := NotSpelled(ts);
    if l.Got? {
      Weaker(l.value, 2, 1, p);
      p := AndTailSpelled(p, l.value, l.rest);
    }
  }

  lemma {:induction false} AndTailSpelled(q: seq<Token>, left: Expr, ts: seq<Token>) returns (p: seq<Token>)
    requires Spells(left, 1, q)
    ensures var r := ReadAndTail(left, ts); r.Got? ==> q + ts == p + r.rest && Spells(r.value, 1, p)
    decreases |ts|, 7
  {
    hide Spells, ReadNot;
    p := q;
    if Starts(ts, AndTok) {
      var x := ReadNot(ts[1..]);
      var b := NotSpelled(ts[1..]);
      if x.Got? {
        SpellBinary(AndOp, left, x.value, 1, q, b);
        assert q + ts == q + [AndTok] + b + x.rest;
        p := AndTailSpelled(q + [AndTok] + b, BinaryExpr(AndOp, left, x.value), x.rest);
      }
    }
  }

  lemma {:induction false} NotSpelled(ts: seq<Token>) returns (p: seq<Token>)
    ensures var r := ReadNot(ts); r.Got? ==> ts == p + r.rest && Spells(r.value, 2, p)
    decreases |ts|, 7
  {
    hide Spells, ReadComparison;
    if Starts(ts, NotTok) {
      var x := ReadNot(ts[1..]);
      var b := NotSpelled(ts[1..]);
      p := [NotTok] + b;
      if x.Got? { SpellUnary(NotOp, x.value, b); }
    } else {
      p := ComparisonSpelled(ts);
      if ReadComparison(ts).Got? { Weaker(ReadComparison(ts).value, 3, 2, p); }
    }
  }

  lemma {:induction false} ComparisonSpelled(ts: seq<Token>) returns (p: seq<Token>)
    ensures var r := ReadComparison(ts); r.Got? ==> ts == p + r.rest && Spells(r.value, 3, p)
    decreases |ts|, 6
  {
    hide Spells, ReadAdditive, ReadCompared, ReadPostfix;
    var l := ReadAdditive(ts);
    p := SumSpelled(ts);
    if l.Got? {
      p := ComparedSpelled(p, l.value, l.rest);
      var c := ReadCompared(l.value, l.rest);
      if c.Got? { p := PostfixSpelled(p, c.value, c.rest); }
    }
  }

  lemma OperatorOf(t: Token)
    ensures CompareOp(t).Some? ==> OpToken(CompareOp(t).value) == t && OpPrecedence(CompareOp(t).value) == 4
    ensures AddOpOf(t).Some? ==> OpToken(AddOpOf(t).value) == t && OpPrecedence(AddOpOf(t).value) == 5
    ensures MulOpOf(t).Some? ==> OpToken(MulOpOf(t).value) == t && OpPrecedence(MulOpOf(t).value) == 6
    ensures t == Eof ==> CompareOp(t).None? && AddOpOf(t).None? && MulOpOf(t).None?
  {
  }

  lemma {:induction false} ComparedSpelled(q: seq<Token>, left: Expr, ts: seq<Token>) returns (p: seq<Token>)
    requires Spells(left, 5, q)
    ensures var r := ReadCompared(left, ts); r.Got? ==> q + ts == p + r.rest && Spells(r.value, 4, p)
    decreases |ts|, 5
  {
    hide Spells, ReadAdditive, CompareOp, OpToken, OpPrecedence;
    p := q;
    Weaker(left, 5, 4, q);
    OperatorOf(First(ts));
    var op := CompareOp(First(ts));
    if op.Some? {
      var x := ReadAdditive(ts[1..]);
      var b := SumSpelled(ts[1..]);
      if x.Got? {
        SpellBinary(op.value, left, x.value, 4, q, b);
        p := q + [ts[0]] + b;
        assert q + ts == p + x.rest;
      }
    }
  }

  lemma {:induction false} SumSpelled(ts: seq<Token>) returns (p: seq<Token>)
    ensures var r := ReadAdditive(ts); r.Got? ==> ts == p + r.rest && Spells(r.value, 5, p)
    decreases |ts|, 5
  {
    hide Spells, ReadMultiplicative, ReadAdditiveTail;
    var l := ReadMultiplicative(ts);
    p := ProductSpelled(ts);
    if l.Got? {
      Weaker(l.value, 6, 5, p);
      p := SumTailSpelled(p, l.value, l.rest);
    }
  }

  lemma {:induction false} SumTailSpelled(q: seq<Token>, left: Expr, ts: seq<Token>) returns (p: seq<Token>)
    requires Spells(left, 5, q)
    ensures var r := ReadAdditiveTail(left, ts); r.Got? ==> q + ts == p + r.rest && Spells(r.value, 5, p)
    decreases |ts|, 4
  {
    hide Spells, ReadMultiplicative, AddOpOf, OpToken, OpPrecedence;
    p := q;
    OperatorOf(First(ts));
    var op := AddOpOf(First(ts));
    if op.Some? {
      var x := ReadMultiplicative(ts[1..]);
      var b := ProductSpelled(ts[1..]);
      if x.Got? {
        SpellBinary(op.value, left, x.value, 5, q, b);
        assert q + ts == q + [ts[0]] + b + x.rest;
        p := SumTailSpelled(q + [ts[0]] + b, BinaryExpr(op.value, left, x.value), x.rest);
      }
    }
  }

  lemma {:induction false} ProductSpelled(ts: seq<Token>) returns (p: seq<Token>)
    ensures var r := ReadMultiplicative(ts); r.Got? ==> ts == p + r.rest && Spells(r.value, 6, p)
    decreases |ts|, 4
  {
    hide Spells, ReadUnary, ReadMultiplicativeTail;
    var l := ReadUnary(ts);
    p := SignSpelled(ts);
    if l.Got? {
      Weaker(l.value, 7, 6, p);
      p := ProductTailSpelled(p, l.value, l.rest);
    }
  }

  lemma {:induction false} ProductTailSpelled(q: seq<Token>, left: Expr, ts: seq<Token>) returns (p: seq<Token>)
    requires Spells(left, 6, q)
    ensures var r := ReadMultiplicativeTail(left, ts); r.Got? ==> q + ts == p + r.rest && Spells(r.value, 6, p)
    decreases |ts|, 3
  {
    hide Spells, ReadUnary, MulOpOf, OpToken, OpPrecedence;
    p := q;
    OperatorOf(First(ts));
    var op := MulOpOf(First(ts));
    if op.Some? {
      var x := ReadUnary(ts[1..]);
      var b := SignSpelled(ts[1..]);
      if x.Got? {
        SpellBinary(op.value, left, x.value, 6, q, b);
        assert q + ts == q + [ts[0]] + b + x.rest;
        p := ProductTailSpelled(q + [ts[0]] + b, BinaryExpr(op.value, left, x.value), x.rest);
      }
    }
  }

  lemma {:induction false} SignSpelled(ts: seq<Token>) returns (p: seq<Token>)
    ensures var r := ReadUnary(ts); r.Got? ==> ts == p + r.rest && Spells(r.value, 7, p)
    decreases |ts|, 3
  {
    hide Spells, ReadPrimary;
    if Starts(ts, Minus) || Starts(ts, Plus) {
      var x := ReadUnary(ts[1..]);
      var b := SignSpelled(ts[1..]);
      var op := if ts[0] == Minus then NegOp else PosOp;
      p := [UnaryToken(op)] + b;
      if x.Got? { SpellUnary(op, x.value, b); }
    } else {
      p := PrimarySpelled(ts);
      if ReadPrimary(ts).Got? { Weaker(ReadPrimary(ts).value, 8, 7, p); }
    }
  }

  // ----- tests

  lemma {:induction false} PostfixSpelled(q: seq<Token>, left: Expr, ts: seq<Token>) returns (p: seq<Token>)
    requires Spells(left, 4, q)
    ensures var r := ReadPostfix(left, ts); r.Got? ==> q + ts == p + r.rest && Spells(r.value, 3, p)
    decreases |ts|, 5
  {
    hide Spells, ReadIsNull, ReadTest;
    p := q;
    Weaker(left, 4, 3, q);
    if Starts(ts, IsTok) {
      p := NullTestSpelled(q, left, ts);
    } else if Starts(ts, NotTok) {
      if Starts(ts[1..], BetweenTok) || Starts(ts[1..], LikeTok) || Starts(ts[1..], InTok) {
        assert ts == Negation(true) + ts[1..];
        p := TestSpelled(q, left, true, ts[1..]);
      }
    } else if Starts(ts, BetweenTok) || Starts(ts, LikeTok) || Starts(ts, InTok) {
      assert ts == Negation(false) + ts;
      p := TestSpelled(q, left, false, ts);
    }
  }

  lemma NullTestSpelled(q: seq<Token>, left: Expr, ts: seq<Token>) returns (p: seq<Token>)
    requires Spells(left, 4, q) && Starts(ts, IsTok)
    ensures var r := ReadIsNull(left, ts[1..]); r.Got? ==> q + ts == p + r.rest && Spells(r.value, 3, p)
  {
    hide Spells;
    var negated := Starts(ts[1..], NotTok);
    var r := ReadIsNull(left, ts[1..]);
    p := q + NullTest(negated);
    SpellNullTest(left, negated, q);
    if r.Got? {
      assert ts == [IsTok] + Negation(negated) + [NullLit] + r.rest;
    }
  }

  lemma {:induction false} TestSpelled(q: seq<Token>, left: Expr, negated: bool, ts: seq<Token>)
      returns (p: seq<Token>)
    requires Spells(left, 4, q) && (Starts(ts, BetweenTok) || Starts(ts, LikeTok) || Starts(ts, InTok))
    ensures var r := ReadTest(left, negated, ts);
            r.Got? ==> q + (Negation(negated) + ts) == p + r.rest && Spells(r.value, 3, p)
    decreases |ts|, 4
  {
    hide Spells, ReadBetween, ReadPrimary, ReadList, Negation, TestTokens;
    p := [];
    if ts[0] == BetweenTok {
      p := BoundsSpelled(q, left, negated, ts);
    } else if ts[0] == LikeTok {
      var x := ReadPrimary(ts[1..]);
      var b := PrimarySpelled(ts[1..]);
      if x.Got? {
        SpellLike(left, x.value, negated, q, b);
        p := q + TestTokens(negated, LikeTok) + b;
        Joined(q, negated, LikeTok, ts, b, x.rest);
      }
    } else {
      p := MembersSpelled(q, left, negated, ts);
    }
  }

  lemma {:induction false} MembersSpelled(q: seq<Token>, left: Expr, negated: bool, ts: seq<Token>)
      returns (p: seq<Token>)
    requires Spells(left, 4, q) && Starts(ts, InTok)
    ensures var r := ReadTest(left, negated, ts);
            r.Got? ==> q + (Negation(negated) + ts) == p + r.rest && Spells(r.value, 3, p)
    decreases |ts|, 3
  {
    hide Spells, ListSpells, ReadBetween, ReadPrimary, ReadList, Negation, TestTokens, InParens;
    p := [];
    if Starts(ts[1..], LParen) {
      assert ts[1..][1..] == ts[2..];
      var vs := ReadList(ts[2..]);
      var b := ListSpelled(ts[2..]);
      if vs.Got? && Starts(vs.rest, RParen) {
        SpellIn(left, vs.value, negated, q, b);
        p := q + TestTokens(negated, InTok) + InParens(b);
        Enclosed(ts[1..], b, vs.rest);
        Joined(q, negated, InTok, ts, InParens(b), vs.rest[1..]);
      }
    }
  }

  lemma {:induction false} BoundsSpelled(q: seq<Token>, left: Expr, negated: bool, ts: seq<Token>)
      returns (p: seq<Token>)
    requires Spells(left, 4, q) && Starts(ts, BetweenTok)
    ensures var r := ReadBetween(left, negated, ts[1..]);
            r.Got? ==> q + (Negation(negated) + ts) == p + r.rest && Spells(r.value, 3, p)
    decreases |ts|, 3
  {
    hide Spells, ReadAdditive, Negation, TestTokens;
    p := [];
    var low := ReadAdditive(ts[1..]);
    var b := SumSpelled(ts[1..]);
    if low.Got? && Starts(low.rest, AndTok) {
      var high := ReadAdditive(low.rest[1..]);
      var c := SumSpelled(low.rest[1..]);
      if high.Got? {
        SpellBetween(left, low.value, high.value, negated, q, b, c);
        p := q + TestTokens(negated, BetweenTok) + (b + [AndTok] + c);
        Linked(ts[1..], b, AndTok, low.rest, c, high.rest);
        Joined(q, negated, BetweenTok, ts, b + [AndTok] + c, high.rest);
      }
    }
  }

  // ----- primaries

  lemma {:induction false} PrimarySpelled(ts: seq<Token>) returns (p: seq<Token>)
    ensures var r := ReadPrimary(ts); r.Got? ==> ts == p + r.rest && Spells(r.value, 8, p)
    decreases |ts|, 2
  {
    hide Spells, InParens, ReadExpression, ReadName, ReadAggregate, ReadCase, ReadNullif, ReadCoalesce;
    p := ts[..if ts == [] then 0 else 1];
    var r := ReadPrimary(ts);
    if r.Got? {
      match ts[0] {
        case LParen =>
          var x := ReadExpression(ts[1..]);
          var b := ExpressionSpelled(ts[1..]);
          SpellWrapped(x.value, 8, b);
          p := InParens(b);
          Enclosed(ts, b, x.rest);
        case CaseTok => p := CaseSpelled(ts);
        case CoalesceTok => p := CoalesceSpelled(ts);
        case NullifTok => p := NullifSpelled(ts);
        case AggTok(kind) => p := AggregateSpelled(kind, ts);
        case Ident(name) => p := NameSpelled(name, ts);
        case IntLit(_) => LeafSpelled(ts);
        case FloatLit(_) => LeafSpelled(ts);
        case StrLit(_) => LeafSpelled(ts);
        case TrueLit => LeafSpelled(ts);
        case FalseLit => LeafSpelled(ts);
        case NullLit => LeafSpelled(ts);
        case _ =>
      }
    }
  }

  lemma LeafSpelled(ts: seq<Token>)
    requires ts != [] && ReadPrimary(ts).Got? && ReadPrimary(ts).rest == ts[1..]
    requires ReadPrimary(ts).value.LiteralExpr? && LiteralToken(ts[0], ReadPrimary(ts).value.value)
    ensures ts == ts[..1] + ReadPrimary(ts).rest && Spells(ReadPrimary(ts).value, 8, ts[..1])
  {
    hide ReadPrimary, LiteralToken;
    SpellBare(ReadPrimary(ts).value, 8, ts[..1]);
  }

  lemma {:induction false} NameSpelled(name: string, ts: seq<Token>) returns (p: seq<Token>)
    requires Starts(ts, Ident(name))
    ensures var r := ReadName(name, ts[1..]); r.Got? ==> ts == p + r.rest && Spells(r.value, 8, p)
    decreases |ts|, 1
  {
    hide Spells, ListSpells, ReadList, InParens;
    var us := ts[1..];
    p := [Ident(name)];
    if Starts(us, LParen) {
      p := CallSpelled(name, ts);
    } else if Starts(us, Dot) {
      if First(us[1..]).Ident? {
        p := [Ident(name), Dot, us[1]];
        SpellBare(ColumnRef(name, us[1].name), 8, p);
        assert ts == p + us[2..];
      }
    } else {
      SpellBare(ColumnRef("", name), 8, p);
    }
  }

  lemma {:induction false} CallSpelled(name: string, ts: seq<Token>) returns (p: seq<Token>)
    requires Starts(ts, Ident(name)) && Starts(ts[1..], LParen)
    ensures var r := ReadName(name, ts[1..]); r.Got? ==> ts == p + r.rest && Spells(r.value, 8, p)
    decreases |ts|, 0
  {
    hide Spells, ListSpells, ReadList, InParens;
    var us := ts[1..];
    p := [];
    if Starts(us[1..], RParen) {
      SpellCall(name, [], []);
      p := [Ident(name)] + InParens([]);
      assert us[1..] == [] + us[1..] && us[1..][1..] == us[2..];
      Enclosed(us, [], us[1..]);
      Headed(Ident(name), ts, InParens([]), us[2..]);
    } else {
      var args := ReadList(us[1..]);
      var b := ListSpelled(us[1..]);
      if args.Got? && Starts(args.rest, RParen) {
        SomeSpelled(args.value, b);
        SpellCall(name, args.value, b);
        p := [Ident(name)] + InParens(b);
        Enclosed(us, b, args.rest);
        Headed(Ident(name), ts, InParens(b), args.rest[1..]);
      }
    }
  }

  lemma SomeSpelled(es: seq<Expr>, p: seq<Token>)
    ensures ListSpells(es, p) ==> es != []
  {
  }

  lemma {:induction false} ListSpelled(ts: seq<Token>) returns (p: seq<Token>)
    ensures var r := ReadList(ts); r.Got? ==> ts == p + r.rest && ListSpells(r.value, p)
    decreases |ts|, 11
  {
    hide Spells, ListSpells, ReadExpression, ReadMore;
    var x := ReadExpression(ts);
    p := ExpressionSpelled(ts);
    if x.Got? {
      SpellOne(x.value, p);
      p := MoreSpelled(p, [x.value], x.rest);
    }
  }

  lemma {:induction false} MoreSpelled(q: seq<Token>, es: seq<Expr>, ts: seq<Token>) returns (p: seq<Token>)
    requires ListSpells(es, q)
    ensures var r := ReadMore(es, ts); r.Got? ==> q + ts == p + r.rest && ListSpells(r.value, p)
    decreases |ts|, 10
  {
    hide Spells, ListSpells, ReadExpression;
    p := q;
    if Starts(ts, Comma) {
      var x := ReadExpression(ts[1..]);
      var b := ExpressionSpelled(ts[1..]);
      if x.Got? {
        SpellLast(es, x.value, q, b);
        assert q + ts == q + [Comma] + b + x.rest;
        p := MoreSpelled(q + [Comma] + b, es + [x.value], x.rest);
      }
    }
  }

  lemma {:induction false} AggregateSpelled(kind: AggregateKind, ts: seq<Token>) returns (p: seq<Token>)
    requires Starts(ts, AggTok(kind))
    ensures var r := ReadAggregate(kind, ts[1..]); r.Got? ==> ts == p + r.rest && Spells(r.value, 8, p)
    decreases |ts|, 1
  {
    hide Spells, ReadExpression, InParens;
    var us := ts[1..];
    p := [];
    if Starts(us, LParen) {
      if kind.COUNT? && Starts(us[1..], Star) {
        if Starts(us[2..], RParen) {
          SpellStar();
          p := [AggTok(COUNT)] + InParens([Star]);
          assert us[1..] == [Star] + us[2..] && us[2..][1..] == us[3..];
          Enclosed(us, [Star], us[2..]);
          Headed(AggTok(COUNT), ts, InParens([Star]), us[3..]);
        }
      } else {
        p := ArgumentSpelled(kind, ts);
      }
    }
  }

  lemma {:induction false} ArgumentSpelled(kind: AggregateKind, ts: seq<Token>) returns (p: seq<Token>)
    requires Starts(ts, AggTok(kind)) && Starts(ts[1..], LParen) && !(kind.COUNT? && Starts(ts[1..][1..], Star))
    ensures var r := ReadAggregate(kind, ts[1..]); r.Got? ==> ts == p + r.rest && Spells(r.value, 8, p)
    decreases |ts|, 0
  {
    hide Spells, ReadExpression, ReadAggregate, InParens, Distinct;
    var us := ts[1..];
    p := [];
    var distinct := Starts(us[1..], DistinctTok);
    var vs := AfterDistinct(us[1..]);
    var x := ReadExpression(vs);
    var b := ExpressionSpelled(vs);
    AggregateOf(kind, us);
    if x.Got? && Starts(x.rest, RParen) {
      SpellAggregate(kind, x.value, distinct, b);
      WithDistinct(us[1..], b, x.rest);
      p := [AggTok(kind)] + InParens(Distinct(distinct) + b);
      Enclosed(us, Distinct(distinct) + b, x.rest);
      Headed(AggTok(kind), ts, InParens(Distinct(distinct) + b), x.rest[1..]);
    }
  }

  function AfterDistinct(ts: seq<Token>): (us: seq<Token>)
    ensures |us| <= |ts|
  {
    if Starts(ts, DistinctTok) then ts[1..] else ts
  }

  lemma AggregateOf(kind: AggregateKind, us: seq<Token>)
    requires Starts(us, LParen) && !(kind.COUNT? && Starts(us[1..], Star))
    ensures var x := ReadExpression(AfterDistinct(us[1..]));
            ReadAggregate(kind, us)
            == if x.Fail? || !Starts(x.rest, RParen) then Fail
               else Got(AggregateExpr(kind, Some(x.value), Starts(us[1..], DistinctTok), false), x.rest[1..])
  {
    hide ReadExpression;
    if Starts(us[1..], DistinctTok) { assert us[1..][1..] == us[2..]; }
  }

  lemma WithDistinct(ts: seq<Token>, p: seq<Token>, rest: seq<Token>)
    requires AfterDistinct(ts) == p + rest
    ensures ts == (Distinct(Starts(ts, DistinctTok)) + p) + rest
  {
  }

  lemma {:induction false} CoalesceSpelled(ts: seq<Token>) returns (p: seq<Token>)
    requires Starts(ts, CoalesceTok)
    ensures var r := ReadCoalesce(ts[1..]); r.Got? ==> ts == p + r.rest && Spells(r.value, 8, p)
    decreases |ts|, 1
  {
    hide Spells, ListSpells, ReadList, InParens;
    var us := ts[1..];
    p := [];
    if Starts(us, LParen) {
      var args := ReadList(us[1..]);
      var b := ListSpelled(us[1..]);
      if args.Got? && Starts(args.rest, RParen) {
        SpellCoalesce(args.value, b);
        p := [CoalesceTok] + InParens(b);
        Enclosed(us, b, args.rest);
        Headed(CoalesceTok, ts, InParens(b), args.rest[1..]);
      }
    }
  }

  lemma {:induction false} NullifSpelled(ts: seq<Token>) returns (p: seq<Token>)
    requires Starts(ts, NullifTok)
    ensures var r := ReadNullif(ts[1..]); r.Got? ==> ts == p + r.rest && Spells(r.value, 8, p)
    decreases |ts|, 1
  {
    hide Spells, ReadExpression, ReadNullif, InParens;
    var us := ts[1..];
    NullifOf(us);
    p := [];
    if Starts(us, LParen) {
      var a := ReadExpression(us[1..]);
      var c := ExpressionSpelled(us[1..]);
      if a.Got? && Starts(a.rest, Comma) {
        var b := ReadExpression(a.rest[1..]);
        var d := ExpressionSpelled(a.rest[1..]);
        if b.Got? && Starts(b.rest, RParen) {
          SpellNullif(a.value, b.value, c, d);
          p := [NullifTok] + InParens(c + [Comma] + d);
          NullifTokens(ts, c, a.rest, d, b.rest);
        }
      }
    }
  }

  lemma NullifOf(us: seq<Token>)
    ensures var r := ReadNullif(us);
            if !Starts(us, LParen) then r.Fail?
            else var a := ReadExpression(us[1..]);
                 if a.Fail? || !Starts(a.rest, Comma) then r.Fail?
                 else var b := ReadExpression(a.rest[1..]);
                      r == if b.Fail? || !Starts(b.rest, RParen) then Fail
                           else Got(NullifExpr(a.value, b.value), b.rest[1..])
  {
    hide ReadExpression;
  }

  lemma NullifTokens(ts: seq<Token>, p: seq<Token>, us: seq<Token>, q: seq<Token>, rest: seq<Token>)
    requires Starts(ts, NullifTok) && Starts(ts[1..], LParen) && ts[1..][1..] == p + us
    requires Starts(us, Comma) && us[1..] == q + rest && Starts(rest, RParen)
    ensures ts == ([NullifTok] + InParens(p + [Comma] + q)) + rest[1..]
  {
    hide InParens;
    Linked(ts[1..][1..], p, Comma, us, q, rest);
    Enclosed(ts[1..], p + [Comma] + q, rest);
    Headed(NullifTok, ts, InParens(p + [Comma] + q), rest[1..]);
  }

  lemma {:induction false} CaseSpelled(ts: seq<Token>) returns (p: seq<Token>)
    requires Starts(ts, CaseTok)
    ensures var r := ReadCase(ts[1..]); r.Got? ==> ts == p + r.rest && Spells(r.value, 8, p)
    decreases |ts|, 1
  {
    hide Spells, WhensSpell, ReadWhens, ReadElse;
    var us := ts[1..];
    p := [];
    var w := ReadWhens([], us);
    NoWhens();
    var b := WhensSpelled([], [], us);
    if w.Got? {
      assert us == b + w.rest;
      p := ElseSpelled(b, w.value, w.rest);
      assert ts == [CaseTok] + us == [CaseTok] + b + w.rest;
    }
  }

  lemma {:induction false} ElseSpelled(b: seq<Token>, whens: seq<WhenClause>, ts: seq<Token>) returns (p: seq<Token>)
    requires WhensSpell(whens, b)
    ensures var r := ReadElse(whens, ts); r.Got? ==> [CaseTok] + b + ts == p + r.rest && Spells(r.value, 8, p)
    decreases |ts|, 11
  {
    hide Spells, WhensSpell, ReadExpression;
    p := [];
    if Starts(ts, ElseTok) {
      var x := ReadExpression(ts[1..]);
      var c := ExpressionSpelled(ts[1..]);
      if x.Got? && Starts(x.rest, EndTok) {
        SpellCaseElse(whens, x.value, b, c);
        p := [CaseTok] + b + ([ElseTok] + c) + [EndTok];
        assert ts == [ElseTok] + c + [EndTok] + x.rest[1..];
      }
    } else if Starts(ts, EndTok) {
      SpellCase(whens, b);
      p := [CaseTok] + b + [EndTok];
      assert ts == [EndTok] + ts[1..];
    }
  }

  lemma NoWhens()
    ensures WhensSpell([], [])
  {
  }

  lemma {:induction false} WhensSpelled(q: seq<Token>, whens: seq<WhenClause>, ts: seq<Token>)
      returns (p: seq<Token>)
    requires WhensSpell(whens, q)
    ensures var r := ReadWhens(whens, ts); r.Got? ==> q + ts == p + r.rest && WhensSpell(r.value, p)
    decreases |ts|, 11
  {
    hide Spells, WhensSpell, WhenSpells, ReadWhen;
    p := q;
    if Starts(ts, WhenTok) {
      var w := ReadWhen(ts[1..]);
      var b := WhenSpelled(ts[1..]);
      if w.Got? {
        SpellLastWhen(whens, w.value, q, [WhenTok] + b);
        assert q + ts == q + ([WhenTok] + b) + w.rest;
        p := WhensSpelled(q + ([WhenTok] + b), whens + [w.value], w.rest);
      }
    }
  }

  lemma {:induction false} WhenSpelled(ts: seq<Token>) returns (p: seq<Token>)
    ensures var r := ReadWhen(ts); r.Got? ==> ts == p + r.rest && WhenSpells(r.value, [WhenTok] + p)
    decreases |ts|, 11
  {
    hide Spells, WhenSpells, ReadExpression;
    p := [];
    var c := ReadExpression(ts);
    var b := ExpressionSpelled(ts);
    if c.Got? && Starts(c.rest, ThenTok) {
      var x := ReadExpression(c.rest[1..]);
      var d := ExpressionSpelled(c.rest[1..]);
      if x.Got? {
        SpellWhen(c.value, x.value, b, d);
        p := b + [ThenTok] + d;
        assert [WhenTok] + p == [WhenTok] + b + [ThenTok] + d;
        assert ts == p + x.rest;
      }
    }
  }
}
