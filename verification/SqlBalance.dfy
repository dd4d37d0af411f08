/** Parentheses balance: in what the expression grammar takes from its input and in what a tree prints. */
module SqlBalance {
  import opened Wrappers
  import Numbers
  import opened SqlAst
  import opened SqlGrammar
  import opened SqlRoundTrip
  import K = SqlTokensKept

  /** The input from the first parenthesis on that closes none of the `depth` open ones or of those opened since. */
  function Beyond(ts: seq<Token>, depth: nat): seq<Token> {
    if ts == [] then []
    else if ts[0] == LParen then Beyond(ts[1..], depth + 1)
    else if ts[0] == RParen then if depth == 0 then ts else Beyond(ts[1..], depth - 1)
    else Beyond(ts[1..], depth)
  }

  predicate Suffix(ts: seq<Token>, rest: seq<Token>) { |rest| <= |ts| && ts[|ts| - |rest|..] == rest }

  /** Balanced tokens lie between ts and rest. */
  ghost predicate Past(ts: seq<Token>, rest: seq<Token>) {
    Suffix(ts, rest) && forall depth: nat :: Beyond(ts, depth) == Beyond(rest, depth)
  }

  lemma PastNothing(ts: seq<Token>)
    ensures Past(ts, ts)
  {
  }

  lemma PastThen(ts: seq<Token>, us: seq<Token>, rest: seq<Token>)
    requires Past(ts, us) && Past(us, rest)
    ensures Past(ts, rest)
  {
    hide Beyond;
    SuffixThen(ts, us, rest);
  }

  lemma SuffixThen(ts: seq<Token>, us: seq<Token>, rest: seq<Token>)
    requires Suffix(ts, us) && Suffix(us, rest)
    ensures Suffix(ts, rest)
  {
    assert ts[|ts| - |rest|..] == us[|us| - |rest|..];
  }

  lemma PastToken(ts: seq<Token>, rest: seq<Token>)
    requires ts != [] && !K.IsParen(ts[0]) && Past(ts[1..], rest)
    ensures Past(ts, rest)
  {
    SuffixThen(ts, ts[1..], rest);
  }

  lemma ThenPastToken(ts: seq<Token>, us: seq<Token>)
    requires Past(ts, us) && us != [] && !K.IsParen(us[0])
    ensures Past(ts, us[1..])
  {
    hide Past;
    PastNothing(us[1..]);
    PastToken(us, us[1..]);
    PastThen(ts, us, us[1..]);
  }

  lemma PastParentheses(ts: seq<Token>, us: seq<Token>)
    requires Starts(ts, LParen) && Past(ts[1..], us) && Starts(us, RParen)
    ensures Past(ts, us[1..])
  {
    SuffixThen(ts, ts[1..], us);
    SuffixThen(ts, us, us[1..]);
    forall depth: nat ensures Beyond(ts, depth) == Beyond(us[1..], depth) {
      assert Beyond(ts[1..], depth + 1) == Beyond(us, depth + 1);
    }
  }

  /** Where the reader meets a closing parenthesis, there is only one place it can be. */
  lemma OnePlace(ts: seq<Token>, us: seq<Token>, vs: seq<Token>)
    requires Past(ts, us) && Past(ts, vs) && Starts(us, RParen) && Starts(vs, RParen)
    ensures us == vs
  {
    assert Beyond(us, 0) == us && Beyond(vs, 0) == vs;
  }

  // ----- reading

  /** What the expression rule takes is balanced. */
  lemma {:induction false} ExpressionPast(ts: seq<Token>)
    ensures var r := ReadExpression(ts); r.Got? ==> Past(ts, r.rest)
    decreases |ts|, 10
  {
    OrPast(ts);
  }

  lemma {:induction false} OrPast(ts: seq<Token>)
    ensures var r := ReadOr(ts); r.Got? ==> Past(ts, r.rest)
    decreases |ts|, 9
  {
    hide Past, ReadAnd, ReadOrTail;
    var l := ReadAnd(ts);
    AndPast(ts);
    if l.Got? {
      OrTailPast(l.value, l.rest);
      var r := ReadOrTail(l.value, l.rest);
      if r.Got? { PastThen(ts, l.rest, r.rest); }
    }
  }

  lemma {:induction false} OrTailPast(left: Expr, ts: seq<Token>)
    ensures var r := ReadOrTail(left, ts); r.Got? ==> Past(ts, r.rest)
    decreases |ts|, 8
  {
    hide Past, ReadAnd;
    PastNothing(ts);
    if Starts(ts, OrTok) {
      var x := ReadAnd(ts[1..]);
      AndPast(ts[1..]);
      if x.Got? {
        PastToken(ts, x.rest);
        OrTailPast(BinaryExpr(OrOp, left, x.value), x.rest);
        var r := ReadOrTail(BinaryExpr(OrOp, left, x.value), x.rest);
        if r.Got? { PastThen(ts, x.rest, r.rest); }
      }
    }
  }

  lemma {:induction false} AndPast(ts: seq<Token>)
    ensures var r := ReadAnd(ts); r.Got? ==> Past(ts, r.rest)
    decreases |ts|, 8
  {
    hide Past, ReadNot, ReadAndTail;
    var l := ReadNot(ts);
    NotPast(ts);
    if l.Got? {
      AndTailPast(l.value, l.rest);
      var r := ReadAndTail(l.value, l.rest);
      if r.Got? { PastThen(ts, l.rest, r.rest); }
    }
  }

  lemma {:induction false} AndTailPast(left: Expr, ts: seq<Token>)
    ensures var r := ReadAndTail(left, ts); r.Got? ==> Past(ts, r.rest)
    decreases |ts|, 7
  {
    hide Past, ReadNot;
    PastNothing(ts);
    if Starts(ts, AndTok) {
      var x := ReadNot(ts[1..]);
      NotPast(ts[1..]);
      if x.Got? {
        PastToken(ts, x.rest);
        AndTailPast(BinaryExpr(AndOp, left, x.value), x.rest);
        var r := ReadAndTail(BinaryExpr(AndOp, left, x.value), x.rest);
        if r.Got? { PastThen(ts, x.rest, r.rest); }
      }
    }
  }

  lemma {:induction false} NotPast(ts: seq<Token>)
    ensures var r := ReadNot(ts); r.Got? ==> Past(ts, r.rest)
    decreases |ts|, 7
  {
    hide Past, ReadComparison;
    if Starts(ts, NotTok) {
      NotPast(ts[1..]);
      var x := ReadNot(ts[1..]);
      if x.Got? { PastToken(ts, x.rest); }
    } else {
      ComparisonPast(ts);
    }
  }

  lemma {:induction false} ComparisonPast(ts: seq<Token>)
    ensures var r := ReadComparison(ts); r.Got? ==> Past(ts, r.rest)
    decreases |ts|, 6
  {
    hide Past, ReadAdditive, ReadCompared, ReadPostfix;
    var l := ReadAdditive(ts);
    AdditivePast(ts);
    if l.Got? {
      var c := ReadCompared(l.value, l.rest);
      ComparedPast(l.value, l.rest);
      if c.Got? {
        PastThen(ts, l.rest, c.rest);
        PostfixPast(c.value, c.rest);
        var r := ReadPostfix(c.value, c.rest);
        if r.Got? { PastThen(ts, c.rest, r.rest); }
      }
    }
  }

  lemma {:induction false} ComparedPast(left: Expr, ts: seq<Token>)
    ensures var r := ReadCompared(left, ts); r.Got? ==> Past(ts, r.rest)
    decreases |ts|, 5
  {
    hide Past, ReadAdditive, CompareOp;
    PastNothing(ts);
    OperatorToken(ts);
    if CompareOp(First(ts)).Some? {
      AdditivePast(ts[1..]);
      var x := ReadAdditive(ts[1..]);
      if x.Got? { PastToken(ts, x.rest); }
    }
  }

  /** An operator is no parenthesis and not the end of the input. */
  lemma OperatorToken(ts: seq<Token>)
    ensures CompareOp(First(ts)).Some? || AddOpOf(First(ts)).Some? || MulOpOf(First(ts)).Some?
            ==> ts != [] && !K.IsParen(ts[0])
  {
  }

  lemma {:induction false} PostfixPast(left: Expr, ts: seq<Token>)
    ensures var r := ReadPostfix(left, ts); r.Got? ==> Past(ts, r.rest)
    decreases |ts|, 5
  {
    hide Past, ReadTest, ReadIsNull;
    PastNothing(ts);
    var r := ReadPostfix(left, ts);
    if Starts(ts, IsTok) {
      IsNullPast(left, ts[1..]);
      if r.Got? { PastToken(ts, r.rest); }
    } else if Starts(ts, NotTok) {
      if Starts(ts[1..], BetweenTok) || Starts(ts[1..], LikeTok) || Starts(ts[1..], InTok) {
        TestPast(left, true, ts[1..]);
        if r.Got? { PastToken(ts, r.rest); }
      }
    } else if Starts(ts, BetweenTok) || Starts(ts, LikeTok) || Starts(ts, InTok) {
      TestPast(left, false, ts);
    }
  }

  lemma IsNullPast(left: Expr, ts: seq<Token>)
    ensures var r := ReadIsNull(left, ts); r.Got? ==> Past(ts, r.rest)
  {
    hide Past;
    PastNothing(ts);
    if Starts(ts, NotTok) { ThenPastToken(ts, ts); }
    var us := if Starts(ts, NotTok) then ts[1..] else ts;
    if Starts(us, NullLit) { ThenPastToken(ts, us); }
  }

  lemma {:induction false} TestPast(left: Expr, negated: bool, ts: seq<Token>)
    requires Starts(ts, BetweenTok) || Starts(ts, LikeTok) || Starts(ts, InTok)
    ensures var r := ReadTest(left, negated, ts); r.Got? ==> Past(ts, r.rest)
    decreases |ts|, 4
  {
    hide Past, ReadBetween, ReadPrimary, ReadList;
    if ts[0] == BetweenTok {
      BetweenPast(left, negated, ts[1..]);
      var r := ReadBetween(left, negated, ts[1..]);
      if r.Got? { PastToken(ts, r.rest); }
    } else if ts[0] == LikeTok {
      PrimaryPast(ts[1..]);
      var p := ReadPrimary(ts[1..]);
      if p.Got? { PastToken(ts, p.rest); }
    } else if Starts(ts[1..], LParen) {
      assert ts[1..][1..] == ts[2..];
      ListPast(ts[2..]);
      var vs := ReadList(ts[2..]);
      if vs.Got? && Starts(vs.rest, RParen) {
        PastParentheses(ts[1..], vs.rest);
        PastToken(ts, vs.rest[1..]);
      }
    }
  }

  lemma {:induction false} BetweenPast(left: Expr, negated: bool, ts: seq<Token>)
    ensures var r := ReadBetween(left, negated, ts); r.Got? ==> Past(ts, r.rest)
    decreases |ts|, 6
  {
    hide Past, ReadAdditive;
    var low := ReadAdditive(ts);
    AdditivePast(ts);
    if low.Got? && Starts(low.rest, AndTok) {
      ThenPastToken(ts, low.rest);
      AdditivePast(low.rest[1..]);
      var high := ReadAdditive(low.rest[1..]);
      if high.Got? { PastThen(ts, low.rest[1..], high.rest); }
    }
  }

  lemma {:induction false} AdditivePast(ts: seq<Token>)
    ensures var r := ReadAdditive(ts); r.Got? ==> Past(ts, r.rest)
    decreases |ts|, 5
  {
    hide Past, ReadMultiplicative, ReadAdditiveTail;
    var l := ReadMultiplicative(ts);
    MultiplicativePast(ts);
    if l.Got? {
      AdditiveTailPast(l.value, l.rest);
      var r := ReadAdditiveTail(l.value, l.rest);
      if r.Got? { PastThen(ts, l.rest, r.rest); }
    }
  }

  lemma {:induction false} AdditiveTailPast(left: Expr, ts: seq<Token>)
    ensures var r := ReadAdditiveTail(left, ts); r.Got? ==> Past(ts, r.rest)
    decreases |ts|, 4
  {
    hide Past, ReadMultiplicative, AddOpOf;
    PastNothing(ts);
    OperatorToken(ts);
    var op := AddOpOf(First(ts));
    if op.Some? {
      var x := ReadMultiplicative(ts[1..]);
      MultiplicativePast(ts[1..]);
      if x.Got? {
        PastToken(ts, x.rest);
        AdditiveTailPast(BinaryExpr(op.value, left, x.value), x.rest);
        var r := ReadAdditiveTail(BinaryExpr(op.value, left, x.value), x.rest);
        if r.Got? { PastThen(ts, x.rest, r.rest); }
      }
    }
  }

  lemma {:induction false} MultiplicativePast(ts: seq<Token>)
    ensures var r := ReadMultiplicative(ts); r.Got? ==> Past(ts, r.rest)
    decreases |ts|, 4
  {
    hide Past, ReadUnary, ReadMultiplicativeTail;
    var l := ReadUnary(ts);
    UnaryPast(ts);
    if l.Got? {
      MultiplicativeTailPast(l.value, l.rest);
      var r := ReadMultiplicativeTail(l.value, l.rest);
      if r.Got? { PastThen(ts, l.rest, r.rest); }
    }
  }

  lemma {:induction false} MultiplicativeTailPast(left: Expr, ts: seq<Token>)
    ensures var r := ReadMultiplicativeTail(left, ts); r.Got? ==> Past(ts, r.rest)
    decreases |ts|, 3
  {
    hide Past, ReadUnary, MulOpOf;
    PastNothing(ts);
    OperatorToken(ts);
    var op := MulOpOf(First(ts));
    if op.Some? {
      var x := ReadUnary(ts[1..]);
      UnaryPast(ts[1..]);
      if x.Got? {
        PastToken(ts, x.rest);
        MultiplicativeTailPast(BinaryExpr(op.value, left, x.value), x.rest);
        var r := ReadMultiplicativeTail(BinaryExpr(op.value, left, x.value), x.rest);
        if r.Got? { PastThen(ts, x.rest, r.rest); }
      }
    }
  }

  lemma {:induction false} UnaryPast(ts: seq<Token>)
    ensures var r := ReadUnary(ts); r.Got? ==> Past(ts, r.rest)
    decreases |ts|, 3
  {
    hide Past, ReadPrimary;
    if Starts(ts, Minus) || Starts(ts, Plus) {
      UnaryPast(ts[1..]);
      var x := ReadUnary(ts[1..]);
      if x.Got? { PastToken(ts, x.rest); }
    } else {
      PrimaryPast(ts);
    }
  }

  lemma {:induction false} PrimaryPast(ts: seq<Token>)
    ensures var r := ReadPrimary(ts); r.Got? ==> Past(ts, r.rest)
    decreases |ts|, 2
  {
    hide Past, ReadExpression, ReadName, ReadAggregate, ReadCase, ReadNullif, ReadCoalesce;
    var r := ReadPrimary(ts);
    if r.Got? {
      if Starts(ts, LParen) {
        ExpressionPast(ts[1..]);
        PastParentheses(ts, ReadExpression(ts[1..]).rest);
      } else {
        WordPast(ts);
        PastToken(ts, r.rest);
      }
    }
  }

  lemma {:induction false} WordPast(ts: seq<Token>)
    requires ReadPrimary(ts).Got? && !Starts(ts, LParen)
    ensures ts != [] && !K.IsParen(ts[0]) && Past(ts[1..], ReadPrimary(ts).rest)
    decreases |ts|, 1
  {
    hide Past, ReadExpression, ReadName, ReadAggregate, ReadCase, ReadNullif, ReadCoalesce;
    PastNothing(ts[1..]);
    match ts[0] {
      case CaseTok => CasePast(ts[1..]);
      case CoalesceTok => CoalescePast(ts[1..]);
      case NullifTok => NullifPast(ts[1..]);
      case AggTok(kind) => AggregatePast(kind, ts[1..]);
      case Ident(name) => NamePast(name, ts[1..]);
      case _ =>
    }
  }

  lemma {:induction false} NamePast(name: string, ts: seq<Token>)
    ensures var r := ReadName(name, ts); r.Got? ==> Past(ts, r.rest)
    decreases |ts|, 12
  {
    hide Past, ReadList;
    PastNothing(ts);
    if Starts(ts, LParen) {
      PastNothing(ts[1..]);
      if Starts(ts[1..], RParen) {
        PastParentheses(ts, ts[1..]);
        assert ts[1..][1..] == ts[2..];
      } else {
        ListPast(ts[1..]);
        var args := ReadList(ts[1..]);
        if args.Got? && Starts(args.rest, RParen) { PastParentheses(ts, args.rest); }
      }
    } else if Starts(ts, Dot) {
      ThenPastToken(ts, ts);
      if First(ts[1..]).Ident? {
        ThenPastToken(ts, ts[1..]);
        assert ts[1..][1..] == ts[2..];
      }
    }
  }

  lemma {:induction false} ListPast(ts: seq<Token>)
    ensures var r := ReadList(ts); r.Got? ==> Past(ts, r.rest)
    decreases |ts|, 11
  {
    hide Past, ReadExpression, ReadMore;
    var x := ReadExpression(ts);
    ExpressionPast(ts);
    if x.Got? {
      MorePast([x.value], x.rest);
      var r := ReadMore([x.value], x.rest);
      if r.Got? { PastThen(ts, x.rest, r.rest); }
    }
  }

  lemma {:induction false} MorePast(es: seq<Expr>, ts: seq<Token>)
    ensures var r := ReadMore(es, ts); r.Got? ==> Past(ts, r.rest)
    decreases |ts|, 10
  {
    hide Past, ReadExpression;
    PastNothing(ts);
    if Starts(ts, Comma) {
      var x := ReadExpression(ts[1..]);
      ExpressionPast(ts[1..]);
      if x.Got? {
        PastToken(ts, x.rest);
        MorePast(es + [x.value], x.rest);
        var r := ReadMore(es + [x.value], x.rest);
        if r.Got? { PastThen(ts, x.rest, r.rest); }
      }
    }
  }

  lemma {:induction false} AggregatePast(kind: AggregateKind, ts: seq<Token>)
    ensures var r := ReadAggregate(kind, ts); r.Got? ==> Past(ts, r.rest)
    decreases |ts|, 12
  {
    hide Past, ReadExpression;
    if Starts(ts, LParen) {
      PastNothing(ts[1..]);
      if kind.COUNT? && Starts(ts[1..], Star) {
        ThenPastToken(ts[1..], ts[1..]);
        assert ts[1..][1..] == ts[2..];
        if Starts(ts[2..], RParen) {
          PastParentheses(ts, ts[2..]);
          assert ts[2..][1..] == ts[3..];
        }
      } else {
        var distinct := Starts(ts[1..], DistinctTok);
        if distinct {
          ThenPastToken(ts[1..], ts[1..]);
          assert ts[1..][1..] == ts[2..];
        }
        var us := if distinct then ts[2..] else ts[1..];
        ExpressionPast(us);
        var x := ReadExpression(us);
        if x.Got? && Starts(x.rest, RParen) {
          PastThen(ts[1..], us, x.rest);
          PastParentheses(ts, x.rest);
        }
      }
    }
  }

  lemma {:induction false} CasePast(ts: seq<Token>)
    ensures var r := ReadCase(ts); r.Got? ==> Past(ts, r.rest)
    decreases |ts|, 13
  {
    hide Past, ReadWhens, ReadElse;
    var w := ReadWhens([], ts);
    WhensPast([], ts);
    if w.Got? {
      ElsePast(w.value, w.rest);
      var r := ReadElse(w.value, w.rest);
      if r.Got? { PastThen(ts, w.rest, r.rest); }
    }
  }

  lemma {:induction false} WhensPast(whens: seq<WhenClause>, ts: seq<Token>)
    ensures var r := ReadWhens(whens, ts); r.Got? ==> Past(ts, r.rest)
    decreases |ts|, 11
  {
    hide Past, ReadWhen;
    PastNothing(ts);
    if Starts(ts, WhenTok) {
      var w := ReadWhen(ts[1..]);
      WhenPast(ts[1..]);
      if w.Got? {
        PastToken(ts, w.rest);
        WhensPast(whens + [w.value], w.rest);
        var r := ReadWhens(whens + [w.value], w.rest);
        if r.Got? { PastThen(ts, w.rest, r.rest); }
      }
    }
  }

  lemma {:induction false} WhenPast(ts: seq<Token>)
    ensures var r := ReadWhen(ts); r.Got? ==> Past(ts, r.rest)
    decreases |ts|, 11
  {
    hide Past, ReadExpression;
    var c := ReadExpression(ts);
    ExpressionPast(ts);
    if c.Got? && Starts(c.rest, ThenTok) {
      ThenPastToken(ts, c.rest);
      ExpressionPast(c.rest[1..]);
      var x := ReadExpression(c.rest[1..]);
      if x.Got? { PastThen(ts, c.rest[1..], x.rest); }
    }
  }

  lemma {:induction false} ElsePast(whens: seq<WhenClause>, ts: seq<Token>)
    ensures var r := ReadElse(whens, ts); r.Got? ==> Past(ts, r.rest)
    decreases |ts|, 11
  {
    hide Past, ReadExpression;
    if Starts(ts, ElseTok) {
      ExpressionPast(ts[1..]);
      var x := ReadExpression(ts[1..]);
      if x.Got? && Starts(x.rest, EndTok) {
        ThenPastToken(ts[1..], x.rest);
        PastToken(ts, x.rest[1..]);
      }
    } else if Starts(ts, EndTok) {
      PastNothing(ts);
      ThenPastToken(ts, ts);
    }
  }

  lemma {:induction false} CoalescePast(ts: seq<Token>)
    ensures var r := ReadCoalesce(ts); r.Got? ==> Past(ts, r.rest)
    decreases |ts|, 12
  {
    hide Past, ReadList;
    if Starts(ts, LParen) {
      ListPast(ts[1..]);
      var args := ReadList(ts[1..]);
      if args.Got? && Starts(args.rest, RParen) { PastParentheses(ts, args.rest); }
    }
  }

  lemma {:induction false} NullifPast(ts: seq<Token>)
    ensures var r := ReadNullif(ts); r.Got? ==> Past(ts, r.rest)
    decreases |ts|, 12
  {
    hide Past, ReadExpression;
    if Starts(ts, LParen) {
      var a := ReadExpression(ts[1..]);
      ExpressionPast(ts[1..]);
      if a.Got? && Starts(a.rest, Comma) {
        ThenPastToken(ts[1..], a.rest);
        ExpressionPast(a.rest[1..]);
        var b := ReadExpression(a.rest[1..]);
        if b.Got? && Starts(b.rest, RParen) {
          PastThen(ts[1..], a.rest[1..], b.rest);
          PastParentheses(ts, b.rest);
        }
      }
    }
  }

  // ----- printing

  /** Trees that print between parentheses. */
  predicate Enclosed(e: Expr) { e.BinaryExpr? || e.InExpr? || e.BetweenExpr? || e.LikeExpr? }

  /** Balanced tokens lie between ts and rest, and among them no empty identifier stands before a dot. */
  ghost predicate Plain(ts: seq<Token>, rest: seq<Token>) {
    Past(ts, rest) && (K.Named(rest) && !Starts(rest, Dot) ==> K.Named(ts) && !Starts(ts, Dot))
  }

  lemma PlainNothing(ts: seq<Token>)
    ensures Plain(ts, ts)
  {
    PastNothing(ts);
  }

  lemma PlainThen(ts: seq<Token>, us: seq<Token>, rest: seq<Token>)
    requires Plain(ts, us) && Plain(us, rest)
    ensures Plain(ts, rest)
  {
    hide Past, K.Named;
    PastThen(ts, us, rest);
  }

  lemma PlainWord(t: Token, ts: seq<Token>, rest: seq<Token>)
    requires !K.IsParen(t) && t != Dot && Plain(ts, rest)
    ensures Plain([t] + ts, rest)
  {
    hide Past;
    assert ([t] + ts)[1..] == ts;
    PastToken([t] + ts, rest);
  }

  lemma PlainNegation(negated: bool, ts: seq<Token>, rest: seq<Token>)
    requires Plain(ts, rest)
    ensures Plain(Negation(negated) + ts, rest)
  {
    hide Plain;
    PlainWord(NotTok, ts, rest);
    assert [] + ts == ts;
  }

  lemma PlainEnclosed(ts: seq<Token>, rest: seq<Token>)
    requires Plain(ts, [RParen] + rest)
    ensures Plain([LParen] + ts, rest)
  {
    hide Past;
    assert ([LParen] + ts)[1..] == ts && ([RParen] + rest)[1..] == rest;
    PastParentheses([LParen] + ts, [RParen] + rest);
  }

  /** A word and something between parentheses. */
  lemma PlainCall(word: Token, ts: seq<Token>, rest: seq<Token>)
    requires !K.IsParen(word) && word != Dot && Plain(ts, [RParen] + rest)
    ensures Plain([word, LParen] + ts, rest)
  {
    hide Plain;
    PlainEnclosed(ts, rest);
    PlainWord(word, [LParen] + ts, rest);
    assert [word, LParen] + ts == [word] + ([LParen] + ts);
  }

  /** What a tree prints is balanced. */
  lemma {:induction false} Printed(e: Expr, rest: seq<Token>)
    ensures Plain(Print(e) + rest, rest)
    decreases e, 1
  {
    hide Plain, Print, PrintList, PrintWhens;
    match e {
      case LiteralExpr(v) => PrintedLiteral(v, rest);
      case ColumnRef(table, column) => PrintedColumn(table, column, rest);
      case UnaryExpr(op, x) =>
        Printed(x, [RParen] + rest);
        PlainCall(UnaryToken(op), Print(x) + ([RParen] + rest), rest);
        UnaryShape(op, x, rest);
        assert [UnaryToken(op), LParen] + (Print(x) + ([RParen] + rest)) == Print(e) + rest;
      case IsNullExpr(x, negated) => PrintedNullTest(x, negated, rest);
      case AggregateExpr(kind, arg, distinct, star) => PrintedArgument(kind, arg, distinct, star, rest);
      case CaseExpr(whens, otherwise) => PrintedCase(whens, otherwise, rest);
      case CoalesceExpr(args) =>
        PrintedList(args, [RParen] + rest);
        PlainCall(CoalesceTok, PrintList(args) + ([RParen] + rest), rest);
        CoalesceShape(args, rest);
      case NullifExpr(a, b) => PrintedNullif(a, b, rest);
      case FunctionCallExpr(name, args) =>
        PrintedList(args, [RParen] + rest);
        PlainCall(Ident(name), PrintList(args) + ([RParen] + rest), rest);
        CallShape(name, args, rest);
      case _ =>
        var inner := Enclosing(e, rest);
        PlainEnclosed(inner, rest);
    }
  }

  lemma PrintedLiteral(v: Literal, rest: seq<Token>)
    ensures Plain(Print(LiteralExpr(v)) + rest, rest)
  {
    hide Plain, PrintList, PrintWhens, Numbers.Spelled;
    PlainNothing(rest);
    var ts := PrintLiteral(v);
    var t := ts[|ts| - 1];
    assert Print(LiteralExpr(v)) == ts;
    PlainWord(t, rest, rest);
    if |ts| == 2 {
      PlainWord(Minus, [t] + rest, rest);
      assert ts + rest == [Minus] + ([t] + rest);
    } else {
      assert ts + rest == [t] + rest;
    }
  }

  lemma PrintedColumn(table: string, column: string, rest: seq<Token>)
    ensures Plain(Print(ColumnRef(table, column)) + rest, rest)
  {
    hide Plain, PrintList, PrintWhens;
    PlainNothing(rest);
    PlainWord(Ident(column), rest, rest);
    if table != "" { QualifiedPlain(table, [Ident(column)] + rest, rest); }
    assert table != "" ==> Print(ColumnRef(table, column)) + rest == [Ident(table), Dot] + ([Ident(column)] + rest);
  }

  lemma QualifiedPlain(table: string, ts: seq<Token>, rest: seq<Token>)
    requires table != "" && Plain(ts, rest)
    ensures Plain([Ident(table), Dot] + ts, rest)
  {
    hide Past;
    var us := [Ident(table), Dot] + ts;
    assert us[1..] == [Dot] + ts && us[1..][1..] == ts;
    PastToken(us[1..], rest);
    PastToken(us, rest);
    assert K.Named(ts) ==> K.Named(us[1..]);
  }

  lemma {:induction false} PrintedNullTest(x: Expr, negated: bool, rest: seq<Token>)
    ensures Plain(Print(IsNullExpr(x, negated)) + rest, rest)
    decreases x, 2
  {
    hide Plain, Print, Negation;
    var t := [IsTok] + Negation(negated) + [NullLit] + rest;
    Printed(x, t);
    PlainNothing(rest);
    PlainWord(NullLit, rest, rest);
    PlainNegation(negated, [NullLit] + rest, rest);
    PlainWord(IsTok, Negation(negated) + ([NullLit] + rest), rest);
    assert t == [IsTok] + (Negation(negated) + ([NullLit] + rest));
    PlainThen(Print(x) + t, t, rest);
    NullTestShape(x, negated, rest);
  }

  lemma {:induction false} PrintedArgument(kind: AggregateKind, arg: Option<Expr>, distinct: bool, star: bool,
        rest: seq<Token>)
    ensures Plain(Print(AggregateExpr(kind, arg, distinct, star)) + rest, rest)
    decreases arg, 2
  {
    hide Plain, Print, PrintList, PrintWhens;
    var tail := [RParen] + rest;
    var inside := if star then [Star]
        else (if distinct then [DistinctTok] else []) + if arg.Some? then Print(arg.value) else [];
    PlainNothing(tail);
    if star {
      PlainWord(Star, tail, tail);
    } else {
      var us := (if arg.Some? then Print(arg.value) else []) + tail;
      if arg.Some? { Printed(arg.value, tail); }
      assert arg.None? ==> us == tail;
      PlainWord(DistinctTok, us, tail);
      assert inside + tail == if distinct then [DistinctTok] + us else us;
    }
    PlainCall(AggTok(kind), inside + tail, rest);
    ArgumentShape(kind, arg, distinct, star, inside, rest);
  }

  lemma ArgumentShape(kind: AggregateKind, arg: Option<Expr>, distinct: bool, star: bool, inside: seq<Token>,
        rest: seq<Token>)
    requires inside == if star then [Star]
        else (if distinct then [DistinctTok] else []) + if arg.Some? then Print(arg.value) else []
    ensures Print(AggregateExpr(kind, arg, distinct, star)) + rest == [AggTok(kind), LParen] +
            (inside + ([RParen] + rest))
  {
    hide PrintList, PrintWhens;
    assert Print(AggregateExpr(kind, arg, distinct, star)) == [AggTok(kind), LParen] + inside + [RParen];
  }

  lemma {:induction false} PrintedNullif(a: Expr, b: Expr, rest: seq<Token>)
    ensures Plain(Print(NullifExpr(a, b)) + rest, rest)
    decreases NullifExpr(a, b), 0
  {
    hide Plain, Print;
    var us := Print(b) + ([RParen] + rest);
    Printed(b, [RParen] + rest);
    PlainWord(Comma, us, [RParen] + rest);
    Printed(a, [Comma] + us);
    PlainThen(Print(a) + ([Comma] + us), [Comma] + us, [RParen] + rest);
    PlainCall(NullifTok, Print(a) + ([Comma] + us), rest);
    NullifShape(a, b, rest);
  }

  lemma {:induction false} PrintedList(es: seq<Expr>, rest: seq<Token>)
    ensures Plain(PrintList(es) + rest, rest)
    decreases es, 2
  {
    hide Plain, Print, PrintMore;
    if es == [] {
      PlainNothing(rest);
      assert PrintList(es) + rest == rest;
    } else {
      PrintedMore(es[1..], rest);
      Printed(es[0], PrintMore(es[1..]) + rest);
      PlainThen(Print(es[0]) + (PrintMore(es[1..]) + rest), PrintMore(es[1..]) + rest, rest);
      ListShape(es, rest);
    }
  }

  lemma {:induction false} PrintedMore(es: seq<Expr>, rest: seq<Token>)
    ensures Plain(PrintMore(es) + rest, rest)
    decreases es, 2
  {
    hide Plain, Print;
    if es == [] {
      PlainNothing(rest);
      NothingPrinted(rest);
    } else {
      PrintedMore(es[1..], rest);
      Printed(es[0], PrintMore(es[1..]) + rest);
      PlainThen(Print(es[0]) + (PrintMore(es[1..]) + rest), PrintMore(es[1..]) + rest, rest);
      PlainWord(Comma, Print(es[0]) + (PrintMore(es[1..]) + rest), rest);
      ListShape(es, rest);
    }
  }

  lemma {:induction false} PrintedCase(whens: seq<WhenClause>, otherwise: Option<Expr>, rest: seq<Token>)
    ensures Plain(Print(CaseExpr(whens, otherwise)) + rest, rest)
    decreases CaseExpr(whens, otherwise), 0
  {
    hide Plain, Print, PrintWhens;
    var end := [EndTok] + rest;
    PlainNothing(rest);
    PlainWord(EndTok, rest, rest);
    var t := if otherwise.None? then end else [ElseTok] + (Print(otherwise.value) + end);
    if otherwise.Some? {
      Printed(otherwise.value, end);
      PlainThen(Print(otherwise.value) + end, end, rest);
      PlainWord(ElseTok, Print(otherwise.value) + end, rest);
    }
    PrintedWhens(whens, t);
    PlainThen(PrintWhens(whens) + t, t, rest);
    PlainWord(CaseTok, PrintWhens(whens) + t, rest);
    CaseShape(whens, otherwise, rest);
  }

  lemma {:induction false} PrintedWhens(whens: seq<WhenClause>, rest: seq<Token>)
    ensures Plain(PrintWhens(whens) + rest, rest)
    decreases whens, 2
  {
    hide Plain, Print, PrintWhen;
    if whens == [] {
      PlainNothing(rest);
      NothingPrinted(rest);
    } else {
      var us := PrintWhens(whens[1..]) + rest;
      PrintedWhens(whens[1..], rest);
      PrintedWhen(whens[0], us);
      PlainThen(PrintWhen(whens[0]) + us, us, rest);
      WhensShape(whens, rest);
    }
  }

  lemma {:induction false} PrintedWhen(w: WhenClause, rest: seq<Token>)
    ensures Plain(PrintWhen(w) + rest, rest)
    decreases w, 2
  {
    hide Plain, Print, PrintWhen;
    var us := Print(w.result) + rest;
    Printed(w.result, rest);
    PlainWord(ThenTok, us, rest);
    Printed(w.cond, [ThenTok] + us);
    PlainThen(Print(w.cond) + ([ThenTok] + us), [ThenTok] + us, rest);
    PlainWord(WhenTok, Print(w.cond) + ([ThenTok] + us), rest);
    WhenShape(w, rest);
  }

  /** The parenthesis after the first one of an enclosed tree that closes it is its last token. */
  lemma {:induction false} Enclosing(e: Expr, rest: seq<Token>) returns (inner: seq<Token>)
    requires Enclosed(e)
    ensures Print(e) + rest == [LParen] + inner && Plain(inner, [RParen] + rest)
    decreases e, 0
  {
    hide Plain, Print, PrintList, PrintWhens, Negation;
    var end := [RParen] + rest;
    match e {
      case BinaryExpr(op, l, r) =>
        var us := [OpToken(op)] + (Print(r) + end);
        Printed(r, end);
        PlainWord(OpToken(op), Print(r) + end, end);
        Printed(l, us);
        PlainThen(Print(l) + us, us, end);
        BinaryShape(op, l, r, rest);
        inner := Print(l) + us;
      case InExpr(x, values, negated) =>
        var us := [InTok, LParen] + (PrintList(values) + ([RParen] + end));
        PrintedList(values, [RParen] + end);
        PlainCall(InTok, PrintList(values) + ([RParen] + end), end);
        PlainLeft(x, negated, us, end);
        InShape(x, values, negated, rest);
        inner := Print(x) + (Negation(negated) + us);
      case BetweenExpr(x, low, high, negated) =>
        var vs := [AndTok] + (Print(high) + end);
        Printed(high, end);
        PlainWord(AndTok, Print(high) + end, end);
        Printed(low, vs);
        PlainThen(Print(low) + vs, vs, end);
        PlainWord(BetweenTok, Print(low) + vs, end);
        PlainLeft(x, negated, [BetweenTok] + (Print(low) + vs), end);
        BetweenShape(x, low, high, negated, rest);
        inner := Print(x) + (Negation(negated) + ([BetweenTok] + (Print(low) + vs)));
      case LikeExpr(x, pattern, negated) =>
        Printed(pattern, end);
        PlainWord(LikeTok, Print(pattern) + end, end);
        PlainLeft(x, negated, [LikeTok] + (Print(pattern) + end), end);
        LikeShape(x, pattern, negated, rest);
        inner := Print(x) + (Negation(negated) + ([LikeTok] + (Print(pattern) + end)));
    }
  }

  lemma {:induction false} PlainLeft(x: Expr, negated: bool, us: seq<Token>, rest: seq<Token>)
    requires Plain(us, rest)
    ensures Plain(Print(x) + (Negation(negated) + us), rest)
    decreases x, 2
  {
    hide Plain, Print, Negation;
    PlainNegation(negated, us, rest);
    Printed(x, Negation(negated) + us);
    PlainThen(Print(x) + (Negation(negated) + us), Negation(negated) + us, rest);
  }
}
