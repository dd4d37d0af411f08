/** The parser reads every spelling of a tree as that tree; with SqlSpelling, it accepts exactly the grammar. */
module SqlAcceptance {
  import opened Wrappers
  import opened Numbers
  import opened SqlAst
  import opened SqlGrammar
  import opened SqlRoundTrip
  import opened SqlSpelling

  // ----- taking a spelling apart

  /** What is not an operator of this precedence is spelled where the next one is asked for. */
  lemma Tighter(e: Expr, k: nat, p: seq<Token>)
    requires Spells(e, k, p)
    ensures Spells(e, k + 1, p) || (Precedence(e) == k && Bare(e, p))
  {
    hide Bare, InParens;
  }

  lemma OperatorParts(e: Expr, k: nat, p: seq<Token>) returns (a: seq<Token>, b: seq<Token>)
    requires Precedence(e) == k && Bare(e, p) && (k <= 1 || 4 <= k <= 6)
    ensures e.BinaryExpr? && OpPrecedence(e.op) == k && p == a + [OpToken(e.op)] + b
    ensures Spells(e.left, if k == 4 then 5 else k, a) && Spells(e.right, k + 1, b)
  {
    hide Spells, OpToken;
    assert e.BinaryExpr?;
    a, b :| p == a + [OpToken(e.op)] + b && Spells(e.left, LeftLevel(e.op), a) && Spells(e.right, RightLevel(e.op), b);
  }

  lemma UnaryParts(e: Expr, p: seq<Token>) returns (a: seq<Token>)
    requires e.UnaryExpr? && Bare(e, p)
    ensures p == [UnaryToken(e.uop)] + a && Spells(e.operand, SignPrecedence(e.uop), a)
  {
    hide Spells, UnaryToken, SignPrecedence;
    a :| p == [UnaryToken(e.uop)] + a && Spells(e.operand, SignPrecedence(e.uop), a);
  }

  lemma NullTestParts(e: Expr, p: seq<Token>) returns (a: seq<Token>)
    requires e.IsNullExpr? && Bare(e, p)
    ensures p == a + NullTest(e.negated) && Spells(e.expr, 4, a)
  {
    hide Spells, NullTest;
    a :| p == a + NullTest(e.negated) && Spells(e.expr, 4, a);
  }

  lemma InParts(e: Expr, p: seq<Token>) returns (a: seq<Token>, b: seq<Token>)
    requires e.InExpr? && Bare(e, p)
    ensures p == a + TestTokens(e.negated, InTok) + InParens(b) && Spells(e.expr, 4, a) && ListSpells(e.values, b)
  {
    hide Spells, ListSpells, TestTokens;
    a, b :| p == a + TestTokens(e.negated, InTok) + InParens(b) && Spells(e.expr, 4, a) && ListSpells(e.values, b);
  }

  lemma BetweenParts(e: Expr, p: seq<Token>) returns (a: seq<Token>, b: seq<Token>, c: seq<Token>)
    requires e.BetweenExpr? && Bare(e, p)
    ensures p == a + TestTokens(e.negated, BetweenTok) + (b + [AndTok] + c)
    ensures Spells(e.expr, 4, a) && Spells(e.low, 5, b) && Spells(e.high, 5, c)
  {
    hide Spells, TestTokens;
    a, b, c :| p == a + TestTokens(e.negated, BetweenTok) + (b + [AndTok] + c)
               && Spells(e.expr, 4, a) && Spells(e.low, 5, b) && Spells(e.high, 5, c);
  }

  lemma LikeParts(e: Expr, p: seq<Token>) returns (a: seq<Token>, b: seq<Token>)
    requires e.LikeExpr? && Bare(e, p)
    ensures p == a + TestTokens(e.negated, LikeTok) + b && Spells(e.expr, 4, a) && Spells(e.pattern, 8, b)
  {
    hide Spells, TestTokens;
    a, b :| p == a + TestTokens(e.negated, LikeTok) + b && Spells(e.expr, 4, a) && Spells(e.pattern, 8, b);
  }

  lemma AggregateParts(e: Expr, p: seq<Token>) returns (a: seq<Token>)
    requires e.AggregateExpr? && Bare(e, p)
    ensures e.star ==> e == AggregateExpr(COUNT, None, false, true)
                       && p == [AggTok(COUNT)] + InParens([Star])
    ensures !e.star ==> e.arg.Some? && Spells(e.arg.value, 0, a)
                        && p == [AggTok(e.kind)] + InParens(Distinct(e.distinct) + a)
  {
    hide Spells, Distinct, InParens;
    a := [];
    if !e.star {
      a :| p == [AggTok(e.kind)] + InParens(Distinct(e.distinct) + a) && Spells(e.arg.value, 0, a);
    }
  }

  lemma CaseParts(e: Expr, p: seq<Token>) returns (a: seq<Token>, b: seq<Token>)
    requires e.CaseExpr? && Bare(e, p)
    ensures WhensSpell(e.whens, a)
    ensures e.otherwise.None? ==> p == [CaseTok] + a + [EndTok]
    ensures e.otherwise.Some? ==> p == [CaseTok] + a + ([ElseTok] + b) + [EndTok] && Spells(e.otherwise.value, 0, b)
  {
    hide Spells, WhensSpell;
    b := [];
    if e.otherwise.None? {
      a :| p == [CaseTok] + a + [EndTok] && WhensSpell(e.whens, a);
    } else {
      a, b :| p == [CaseTok] + a + ([ElseTok] + b) + [EndTok] && WhensSpell(e.whens, a)
              && Spells(e.otherwise.value, 0, b);
    }
  }

  lemma CoalesceParts(e: Expr, p: seq<Token>) returns (a: seq<Token>)
    requires e.CoalesceExpr? && Bare(e, p)
    ensures p == [CoalesceTok] + InParens(a) && ListSpells(e.args, a)
  {
    hide Spells, ListSpells, InParens;
    a :| p == [CoalesceTok] + InParens(a) && ListSpells(e.args, a);
  }

  lemma NullifParts(e: Expr, p: seq<Token>) returns (a: seq<Token>, b: seq<Token>)
    requires e.NullifExpr? && Bare(e, p)
    ensures p == [NullifTok] + InParens(a + [Comma] + b) && Spells(e.first, 0, a) && Spells(e.second, 0, b)
  {
    hide Spells, InParens;
    a, b :| p == [NullifTok] + InParens(a + [Comma] + b) && Spells(e.first, 0, a)
            && Spells(e.second, 0, b);
  }

  lemma CallParts(e: Expr, p: seq<Token>) returns (a: seq<Token>)
    requires e.FunctionCallExpr? && Bare(e, p)
    ensures p == [Ident(e.name)] + InParens(a)
    ensures if e.args == [] then a == [] else ListSpells(e.args, a)
  {
    hide Spells, ListSpells, InParens;
    a :| p == [Ident(e.name)] + InParens(a) && if e.args == [] then a == [] else ListSpells(e.args, a);
  }

  lemma WhenParts(w: WhenClause, ts: seq<Token>) returns (p: seq<Token>, q: seq<Token>)
    requires WhenSpells(w, ts)
    ensures ts == [WhenTok] + p + [ThenTok] + q && Spells(w.cond, 0, p) && Spells(w.result, 0, q)
  {
    hide Spells;
    p, q :| ts == [WhenTok] + p + [ThenTok] + q && Spells(w.cond, 0, p) && Spells(w.result, 0, q);
  }

  lemma WhensParts(whens: seq<WhenClause>, ts: seq<Token>) returns (p: seq<Token>, q: seq<Token>)
    requires WhensSpell(whens, ts) && whens != []
    ensures ts == p + q && WhenSpells(whens[0], p) && WhensSpell(whens[1..], q)
  {
    hide WhenSpells;
    p, q :| ts == p + q && WhenSpells(whens[0], p) && WhensSpell(whens[1..], q);
  }

  // ----- how a spelling begins

  predicate Begins(t: Token, k: nat) {
    && t != Star && t != DistinctTok && t != RParen
    && (k >= 3 ==> t != NotTok) && (k >= 8 ==> t != Minus && t != Plus)
  }

  lemma {:induction false} BeginsWith(e: Expr, k: nat, p: seq<Token>)
    requires Spells(e, k, p)
    ensures p != [] && Begins(p[0], k)
    decreases e, |p|, 1
  {
    hide Bare, Begins;
    if k <= Precedence(e) && Bare(e, p) {
      BareBegins(e, k, p);
    } else {
      assert p[0] == LParen;
      ParenBegins(k);
    }
  }

  lemma ParenBegins(k: nat)
    ensures Begins(LParen, k)
  {
  }

  lemma {:induction false} BareBegins(e: Expr, k: nat, p: seq<Token>)
    requires Bare(e, p) && k <= Precedence(e)
    ensures p != [] && Begins(p[0], k)
    decreases e, |p|, 0
  {
    hide Spells, ListSpells, WhensSpell, Bare, NullTest, TestTokens, InParens, Distinct;
    match e
    case LiteralExpr(v) => LeafBegins(e, k, p);
    case ColumnRef(_, _) => LeafBegins(e, k, p);
    case BinaryExpr(op, l, r) => { var a, b := OperatorParts(e, Precedence(e), p); BeginsWith(l, LeftLevel(op), a); }
    case UnaryExpr(op, x) => { var a := UnaryParts(e, p); }
    case IsNullExpr(x, _) => { var a := NullTestParts(e, p); BeginsWith(x, 4, a); }
    case InExpr(x, _, _) => { var a, b := InParts(e, p); BeginsWith(x, 4, a); }
    case BetweenExpr(x, _, _, _) => { var a, b, c := BetweenParts(e, p); BeginsWith(x, 4, a); }
    case LikeExpr(x, _, _) => { var a, b := LikeParts(e, p); BeginsWith(x, 4, a); }
    case AggregateExpr(_, _, _, _) => { var a := AggregateParts(e, p); }
    case CaseExpr(_, _) => { var a, b := CaseParts(e, p); }
    case CoalesceExpr(_) => { var a := CoalesceParts(e, p); }
    case NullifExpr(_, _) => { var a, b := NullifParts(e, p); }
    case FunctionCallExpr(_, _) => { var a := CallParts(e, p); }
  }

  lemma LeafBegins(e: Expr, k: nat, p: seq<Token>)
    requires (e.LiteralExpr? || e.ColumnRef?) && Bare(e, p)
    ensures p != [] && Begins(p[0], k)
  {
    hide Spells;
  }

  // ----- one round of each loop

  lemma OrRound(l: Expr, us: seq<Token>, r: Expr, rest: seq<Token>)
    requires ReadAnd(us) == Got(r, rest)
    ensures ReadOrTail(l, [OrTok] + us) == ReadOrTail(BinaryExpr(OrOp, l, r), rest)
  {
    hide ReadAnd;
    assert ([OrTok] + us)[1..] == us;
  }

  lemma AndRound(l: Expr, us: seq<Token>, r: Expr, rest: seq<Token>)
    requires ReadNot(us) == Got(r, rest)
    ensures ReadAndTail(l, [AndTok] + us) == ReadAndTail(BinaryExpr(AndOp, l, r), rest)
  {
    hide ReadNot;
    assert ([AndTok] + us)[1..] == us;
  }

  lemma CompareRound(l: Expr, op: BinaryOp, us: seq<Token>, r: Expr, rest: seq<Token>)
    requires OpPrecedence(op) == 4 && ReadAdditive(us) == Got(r, rest)
    ensures ReadCompared(l, [OpToken(op)] + us) == Got(BinaryExpr(op, l, r), rest)
  {
    hide ReadAdditive;
    assert ([OpToken(op)] + us)[1..] == us;
  }

  lemma SumRound(l: Expr, op: BinaryOp, us: seq<Token>, r: Expr, rest: seq<Token>)
    requires OpPrecedence(op) == 5 && ReadMultiplicative(us) == Got(r, rest)
    ensures ReadAdditiveTail(l, [OpToken(op)] + us) == ReadAdditiveTail(BinaryExpr(op, l, r), rest)
  {
    hide ReadMultiplicative;
    assert ([OpToken(op)] + us)[1..] == us;
  }

  lemma ProductRound(l: Expr, op: BinaryOp, us: seq<Token>, r: Expr, rest: seq<Token>)
    requires OpPrecedence(op) == 6 && ReadUnary(us) == Got(r, rest)
    ensures ReadMultiplicativeTail(l, [OpToken(op)] + us) == ReadMultiplicativeTail(BinaryExpr(op, l, r), rest)
  {
    hide ReadUnary;
    assert ([OpToken(op)] + us)[1..] == us;
  }

  /** What an operator token ends. */
  lemma OperatorEnds(op: BinaryOp, us: seq<Token>)
    ensures OpPrecedence(op) == 0 ==> OpToken(op) == OrTok
    ensures OpPrecedence(op) == 1 ==> OpToken(op) == AndTok
    ensures OpPrecedence(op) <= 1 ==> TestEnds([OpToken(op)] + us)
    ensures OpPrecedence(op) <= 4 ==> SumEnds([OpToken(op)] + us)
    ensures OpPrecedence(op) <= 5 ==> TermEnds([OpToken(op)] + us)
    ensures NameEnds([OpToken(op)] + us)
  {
  }

  lemma Onward3(a: seq<Token>, t: Token, b: seq<Token>, rest: seq<Token>)
    ensures (a + [t] + b) + rest == a + ([t] + (b + rest))
  {
  }

  // ----- every spelling is read, level by level

  lemma {:induction false} OrAccepted(e: Expr, p: seq<Token>, rest: seq<Token>)
    requires Spells(e, 0, p) && TestEnds(rest) && !Starts(rest, AndTok)
    ensures ReadOr(p + rest) == ReadOrTail(e, rest)
    decreases e, |p|, 20
  {
    hide Spells, Bare, Precedence, OpPrecedence, OpToken, TestEnds, SumEnds, TermEnds, NameEnds, ReadAnd, ReadOrTail;
    Tighter(e, 0, p);
    if Precedence(e) == 0 && Bare(e, p) {
      var a, b := OperatorParts(e, 0, p);
      OperatorEnds(e.op, b + rest);
      OrAccepted(e.left, a, [OrTok] + (b + rest));
      AndAccepted(e.right, b, rest);
      NoMoreAnd(e.right, rest);
      OrRound(e.left, b + rest, e.right, rest);
      Onward3(a, OrTok, b, rest);
      SingleOp(e);
    } else {
      AndAccepted(e, p, rest);
      NoMoreAnd(e, rest);
    }
  }

  lemma SingleOp(e: Expr)
    requires e.BinaryExpr?
    ensures OpPrecedence(e.op) == 0 ==> e == BinaryExpr(OrOp, e.left, e.right)
    ensures OpPrecedence(e.op) == 1 ==> e == BinaryExpr(AndOp, e.left, e.right)
  {
  }

  lemma NoMoreAnd(e: Expr, rest: seq<Token>)
    requires !Starts(rest, AndTok)
    ensures ReadAndTail(e, rest) == Got(e, rest)
  {
  }

  lemma {:induction false} AndAccepted(e: Expr, p: seq<Token>, rest: seq<Token>)
    requires Spells(e, 1, p) && TestEnds(rest)
    ensures ReadAnd(p + rest) == ReadAndTail(e, rest)
    decreases e, |p|, 19
  {
    hide Spells, Bare, Precedence, OpPrecedence, OpToken, TestEnds, SumEnds, TermEnds, NameEnds, ReadNot, ReadAndTail;
    Tighter(e, 1, p);
    if Precedence(e) == 1 && Bare(e, p) {
      var a, b := OperatorParts(e, 1, p);
      OperatorEnds(e.op, b + rest);
      AndAccepted(e.left, a, [AndTok] + (b + rest));
      NotAccepted(e.right, b, rest);
      AndRound(e.left, b + rest, e.right, rest);
      Onward3(a, AndTok, b, rest);
      SingleOp(e);
    } else {
      NotAccepted(e, p, rest);
    }
  }

  lemma {:induction false} NotAccepted(e: Expr, p: seq<Token>, rest: seq<Token>)
    requires Spells(e, 2, p) && TestEnds(rest)
    ensures ReadNot(p + rest) == Got(e, rest)
    decreases e, |p|, 18
  {
    hide Spells, Bare, TestEnds, SumEnds, TermEnds, NameEnds, ReadComparison;
    Tighter(e, 2, p);
    if Precedence(e) == 2 && Bare(e, p) {
      OnlyNot(e);
      var a := UnaryParts(e, p);
      NotAccepted(e.operand, a, rest);
      assert (p + rest)[1..] == a + rest;
    } else {
      BeginsWith(e, 3, p);
      TestAccepted(e, p, rest);
    }
  }

  lemma OnlyNot(e: Expr)
    requires Precedence(e) == 2
    ensures e.UnaryExpr? && e.uop == NotOp
  {
  }

  lemma OnlyTests(e: Expr)
    requires Precedence(e) == 3
    ensures e.IsNullExpr? || e.InExpr? || e.BetweenExpr? || e.LikeExpr?
  {
  }

  lemma {:induction false} TestAccepted(e: Expr, p: seq<Token>, rest: seq<Token>)
    requires Spells(e, 3, p) && TestEnds(rest)
    ensures ReadComparison(p + rest) == Got(e, rest)
    decreases e, |p|, 17
  {
    hide Spells, Bare, Precedence, TestEnds, SumEnds, TermEnds, NameEnds, ReadComparison, ReadPostfix, CompareOp;
    EndsAll(rest);
    Tighter(e, 3, p);
    if Precedence(e) == 3 && Bare(e, p) {
      OnlyTests(e);
      if e.IsNullExpr? {
        NullTestAccepted(e, p, rest);
      } else if e.InExpr? {
        InAccepted(e, p, rest);
      } else if e.BetweenExpr? {
        BetweenAccepted(e, p, rest);
      } else {
        LikeAccepted(e, p, rest);
      }
    } else {
      Stops(e, rest);
      ComparisonAccepted(e, p, rest);
    }
  }

  lemma {:induction false} NullTestAccepted(e: Expr, p: seq<Token>, rest: seq<Token>)
    requires e.IsNullExpr? && Bare(e, p)
    ensures ReadComparison(p + rest) == Got(e, rest)
    decreases e, |p|, 11
  {
    hide Spells, Bare, SumEnds, ReadComparison, ReadPostfix, Negation;
    var a := NullTestParts(e, p);
    var us := [IsTok] + Negation(e.negated) + [NullLit] + rest;
    TestWord(false, us);
    assert p + rest == a + us;
    ComparisonAccepted(e.expr, a, us);
    PostfixNull(e.expr, e.negated, rest);
  }

  lemma {:induction false} AnyTestAccepted(x: Expr, negated: bool, a: seq<Token>, us: seq<Token>, e: Expr,
        rest: seq<Token>)
    requires Spells(x, 4, a) && (Starts(us, BetweenTok) || Starts(us, LikeTok) || Starts(us, InTok))
    requires ReadsTest(x, negated, us, e, rest)
    ensures ReadComparison(a + (Negation(negated) + us)) == Got(e, rest)
    decreases x, |a|, 17
  {
    hide Spells, SumEnds, ReadComparison, ReadPostfix, ReadTest, CompareOp;
    TestWord(negated, us);
    TestWordIsNoOperator(negated, us);
    ComparisonAccepted(x, a, Negation(negated) + us);
    PostfixTest(x, negated, us, e, rest);
  }

  lemma TestWordIsNoOperator(negated: bool, us: seq<Token>)
    requires Starts(us, BetweenTok) || Starts(us, LikeTok) || Starts(us, InTok)
    ensures CompareOp(First(Negation(negated) + us)).None?
  {
    assert [] + us == us;
  }

  lemma InCut(a: seq<Token>, negated: bool, b: seq<Token>, rest: seq<Token>)
    ensures (a + TestTokens(negated, InTok) + InParens(b)) + rest
            == a + (Negation(negated) + ([InTok, LParen] + (b + ([RParen] + rest))))
  {
    hide Negation;
  }

  lemma {:induction false} InAccepted(e: Expr, p: seq<Token>, rest: seq<Token>)
    requires e.InExpr? && Bare(e, p)
    ensures ReadComparison(p + rest) == Got(e, rest)
    decreases e, |p|, 11
  {
    hide Spells, ListSpells, Bare, Ends, ReadComparison, ReadsTest, ReadsList, TestTokens, InParens, Negation;
    var a, b := InParts(e, p);
    Closing(RParen, rest);
    ListAccepted(e.values, b, [RParen] + rest);
    ReadMembers(e.expr, e.negated, b + ([RParen] + rest), e.values, rest);
    AnyTestAccepted(e.expr, e.negated, a, [InTok, LParen] + (b + ([RParen] + rest)), e, rest);
    InCut(a, e.negated, b, rest);
  }

  lemma BetweenCut(a: seq<Token>, negated: bool, b: seq<Token>, c: seq<Token>, rest: seq<Token>)
    ensures (a + TestTokens(negated, BetweenTok) + (b + [AndTok] + c)) + rest
            == a + (Negation(negated) + ([BetweenTok] + (b + ([AndTok] + (c + rest)))))
  {
    hide Negation;
    Onward3(b, AndTok, c, rest);
    var us := b + [AndTok] + c;
    assert (a + (Negation(negated) + [BetweenTok]) + us) + rest
        == a + (Negation(negated) + ([BetweenTok] + (us + rest)));
  }

  lemma {:induction false} BetweenAccepted(e: Expr, p: seq<Token>, rest: seq<Token>)
    requires e.BetweenExpr? && Bare(e, p) && SumEnds(rest)
    ensures ReadComparison(p + rest) == Got(e, rest)
    decreases e, |p|, 11
  {
    hide Spells, Bare, SumEnds, TermEnds, ReadComparison, Reads, ReadsTest, TestTokens, Negation;
    var a, b, c := BetweenParts(e, p);
    TestWord(false, [AndTok] + (c + rest));
    SumRead(e.low, b, [AndTok] + (c + rest));
    SumRead(e.high, c, rest);
    ReadBounds(e.expr, e.negated, b + ([AndTok] + (c + rest)), e.low, c + rest, e.high, rest);
    AnyTestAccepted(e.expr, e.negated, a, [BetweenTok] + (b + ([AndTok] + (c + rest))), e, rest);
    BetweenCut(a, e.negated, b, c, rest);
  }

  lemma LikeCut(a: seq<Token>, negated: bool, b: seq<Token>, rest: seq<Token>)
    ensures (a + TestTokens(negated, LikeTok) + b) + rest == a + (Negation(negated) + ([LikeTok] + (b + rest)))
  {
    hide Negation;
  }

  lemma {:induction false} LikeAccepted(e: Expr, p: seq<Token>, rest: seq<Token>)
    requires e.LikeExpr? && Bare(e, p) && NameEnds(rest)
    ensures ReadComparison(p + rest) == Got(e, rest)
    decreases e, |p|, 11
  {
    hide Spells, Bare, NameEnds, ReadComparison, ReadPrimary, ReadsTest, TestTokens, Negation;
    var a, b := LikeParts(e, p);
    PrimaryAccepted(e.pattern, b, rest);
    ReadPattern(e.expr, e.negated, b + rest, e.pattern, rest);
    AnyTestAccepted(e.expr, e.negated, a, [LikeTok] + (b + rest), e, rest);
    LikeCut(a, e.negated, b, rest);
  }

  lemma {:induction false} ComparisonAccepted(e: Expr, p: seq<Token>, rest: seq<Token>)
    requires Spells(e, 4, p) && SumEnds(rest) && CompareOp(First(rest)).None?
    ensures ReadComparison(p + rest) == ReadPostfix(e, rest)
    decreases e, |p|, 16
  {
    hide Spells, Bare, Precedence, OpPrecedence, OpToken, CompareOp, SumEnds, TermEnds, NameEnds, ReadAdditive,
         ReadPostfix;
    Tighter(e, 4, p);
    if Precedence(e) == 4 && Bare(e, p) {
      var a, b := OperatorParts(e, 4, p);
      OperatorEnds(e.op, b + rest);
      SumRead(e.left, a, [OpToken(e.op)] + (b + rest));
      SumRead(e.right, b, rest);
      CompareRound(e.left, e.op, b + rest, e.right, rest);
      Onward3(a, OpToken(e.op), b, rest);
    } else {
      SumRead(e, p, rest);
    }
  }

  lemma {:induction false} SumRead(e: Expr, p: seq<Token>, rest: seq<Token>)
    requires Spells(e, 5, p) && SumEnds(rest)
    ensures Reads(AdditiveRule, p + rest, e, rest) && ReadAdditive(p + rest) == Got(e, rest)
    decreases e, |p|, 15
  {
    hide Spells, SumEnds, TermEnds, NameEnds, ReadExpression, ReadAnd, ReadNot, ReadComparison, ReadAdditive,
         ReadMultiplicative, ReadUnary, ReadPrimary, ReadAdditiveTail;
    EndsAll(rest);
    SumAccepted(e, p, rest);
    SumStops(e, rest);
  }

  lemma {:induction false} SumAccepted(e: Expr, p: seq<Token>, rest: seq<Token>)
    requires Spells(e, 5, p) && TermEnds(rest)
    ensures ReadAdditive(p + rest) == ReadAdditiveTail(e, rest)
    decreases e, |p|, 14
  {
    hide Spells, Bare, Precedence, OpPrecedence, OpToken, TermEnds, NameEnds, ReadMultiplicative, ReadAdditiveTail;
    Tighter(e, 5, p);
    if Precedence(e) == 5 && Bare(e, p) {
      var a, b := OperatorParts(e, 5, p);
      OperatorEnds(e.op, b + rest);
      SumAccepted(e.left, a, [OpToken(e.op)] + (b + rest));
      ProductRead(e.right, b, rest);
      SumRound(e.left, e.op, b + rest, e.right, rest);
      Onward3(a, OpToken(e.op), b, rest);
    } else {
      ProductRead(e, p, rest);
    }
  }

  lemma {:induction false} ProductRead(e: Expr, p: seq<Token>, rest: seq<Token>)
    requires Spells(e, 6, p) && TermEnds(rest)
    ensures ReadMultiplicative(p + rest) == Got(e, rest)
    decreases e, |p|, 13
  {
    hide Spells, TermEnds, NameEnds, ReadMultiplicative, ReadMultiplicativeTail;
    EndsAll(rest);
    ProductAccepted(e, p, rest);
    TermStops(e, rest);
  }

  lemma {:induction false} ProductAccepted(e: Expr, p: seq<Token>, rest: seq<Token>)
    requires Spells(e, 6, p) && NameEnds(rest)
    ensures ReadMultiplicative(p + rest) == ReadMultiplicativeTail(e, rest)
    decreases e, |p|, 12
  {
    hide Spells, Bare, Precedence, OpPrecedence, OpToken, NameEnds, ReadUnary, ReadMultiplicativeTail;
    Tighter(e, 6, p);
    if Precedence(e) == 6 && Bare(e, p) {
      var a, b := OperatorParts(e, 6, p);
      OperatorEnds(e.op, b + rest);
      ProductAccepted(e.left, a, [OpToken(e.op)] + (b + rest));
      SignAccepted(e.right, b, rest);
      ProductRound(e.left, e.op, b + rest, e.right, rest);
      Onward3(a, OpToken(e.op), b, rest);
    } else {
      SignAccepted(e, p, rest);
    }
  }

  lemma OnlySigns(e: Expr)
    requires Precedence(e) == 7
    ensures e.UnaryExpr? && e.uop != NotOp
  {
  }

  lemma {:induction false} SignAccepted(e: Expr, p: seq<Token>, rest: seq<Token>)
    requires Spells(e, 7, p) && NameEnds(rest)
    ensures ReadUnary(p + rest) == Got(e, rest)
    decreases e, |p|, 11
  {
    hide Spells, Bare, Precedence, NameEnds, ReadPrimary;
    Tighter(e, 7, p);
    if Precedence(e) == 7 && Bare(e, p) {
      OnlySigns(e);
      var a := UnaryParts(e, p);
      SignAccepted(e.operand, a, rest);
      assert (p + rest)[1..] == a + rest;
    } else {
      BeginsWith(e, 8, p);
      PrimaryAccepted(e, p, rest);
    }
  }

  // ----- primaries

  lemma {:induction false} PrimaryAccepted(e: Expr, p: seq<Token>, rest: seq<Token>)
    requires Spells(e, 8, p) && NameEnds(rest)
    ensures Reads(PrimaryRule, p + rest, e, rest) && ReadPrimary(p + rest) == Got(e, rest)
    decreases e, |p|, 10
  {
    hide Spells, Bare, Precedence, NameEnds, ReadExpression, ReadAnd, ReadNot, ReadComparison, ReadAdditive,
         ReadMultiplicative, ReadUnary, ReadPrimary;
    if 8 <= Precedence(e) && Bare(e, p) {
      AtomAccepted(e, p, rest);
    } else {
      var a := WrappedParts(e, p);
      WrappedAccepted(e, a, rest);
    }
  }

  lemma WrappedParts(e: Expr, p: seq<Token>) returns (a: seq<Token>)
    requires Spells(e, 8, p) && !(8 <= Precedence(e) && Bare(e, p))
    ensures p == InParens(a) && Spells(e, 0, a) && |a| < |p|
  {
    hide Bare, Precedence;
    a :| p == InParens(a) && Spells(e, 0, a);
  }

  lemma ParensCut(a: seq<Token>, rest: seq<Token>)
    ensures InParens(a) + rest == [LParen] + (a + ([RParen] + rest))
  {
  }

  lemma {:induction false} WrappedAccepted(e: Expr, a: seq<Token>, rest: seq<Token>)
    requires Spells(e, 0, a)
    ensures Reads(PrimaryRule, InParens(a) + rest, e, rest)
    decreases e, |a|, 22
  {
    hide Spells, Ends, Reads, InParens;
    Closing(RParen, rest);
    WholeAccepted(e, a, [RParen] + rest);
    ReadParens(a + ([RParen] + rest), e, rest);
    ParensCut(a, rest);
  }

  /** A spelling of the tree, followed by a token that does not continue an expression, is read as the tree, and
      nothing after it is touched. */
  lemma {:induction false} WholeAccepted(e: Expr, p: seq<Token>, rest: seq<Token>)
    requires Spells(e, 0, p) && Ends(rest)
    ensures Reads(ExpressionRule, p + rest, e, rest) && ReadExpression(p + rest) == Got(e, rest)
    decreases e, |p|, 21
  {
    hide Spells, Ends, TestEnds, SumEnds, TermEnds, NameEnds, ReadAnd, ReadNot, ReadComparison, ReadAdditive,
         ReadMultiplicative, ReadUnary, ReadPrimary, ReadOr;
    EndsAll(rest);
    OrAccepted(e, p, rest);
    assert ReadOrTail(e, rest) == Got(e, rest);
  }

  lemma OnlyAtoms(e: Expr)
    requires Precedence(e) >= 8
    ensures e.LiteralExpr? || e.ColumnRef? || e.AggregateExpr? || e.CaseExpr? || e.CoalesceExpr? || e.NullifExpr?
            || e.FunctionCallExpr?
  {
  }

  lemma {:induction false} AtomAccepted(e: Expr, p: seq<Token>, rest: seq<Token>)
    requires 8 <= Precedence(e) && Bare(e, p) && NameEnds(rest)
    ensures Reads(PrimaryRule, p + rest, e, rest)
    decreases e, |p|, 9
  {
    hide Spells, Bare, Precedence, NameEnds, Reads;
    OnlyAtoms(e);
    if e.LiteralExpr? {
      LiteralAccepted(e, p, rest);
    } else if e.ColumnRef? {
      ColumnAccepted(e, p, rest);
    } else if e.AggregateExpr? {
      AggregateAccepted(e, p, rest);
    } else if e.CaseExpr? {
      CaseAccepted(e, p, rest);
    } else if e.CoalesceExpr? {
      CoalesceAccepted(e, p, rest);
    } else if e.NullifExpr? {
      NullifAccepted(e, p, rest);
    } else {
      CallAccepted(e, p, rest);
    }
  }

  lemma LiteralAccepted(e: Expr, p: seq<Token>, rest: seq<Token>)
    requires e.LiteralExpr? && Bare(e, p)
    ensures Reads(PrimaryRule, p + rest, e, rest)
  {
    hide Spells, Nearest, ReadExpression, ReadAnd, ReadNot, ReadComparison, ReadAdditive, ReadMultiplicative, ReadUnary,
         ReadName, ReadAggregate, ReadCase, ReadNullif, ReadCoalesce;
    assert First(p + rest) == p[0] && (p + rest)[1..] == rest;
  }

  lemma ColumnAccepted(e: Expr, p: seq<Token>, rest: seq<Token>)
    requires e.ColumnRef? && Bare(e, p) && NameEnds(rest)
    ensures Reads(PrimaryRule, p + rest, e, rest)
  {
    hide Spells, NameEnds, ReadExpression, ReadAnd, ReadNot, ReadComparison, ReadAdditive, ReadMultiplicative,
         ReadUnary, ReadName, ReadAggregate, ReadCase, ReadNullif, ReadCoalesce;
    NamesColumn(e.table, e.column, rest);
    if p == [Ident(e.table), Dot, Ident(e.column)] {
      assert (p + rest)[1..] == [Dot, Ident(e.column)] + rest;
    } else {
      assert (p + rest)[1..] == rest;
    }
  }

  lemma WordCut(word: Token, a: seq<Token>, rest: seq<Token>)
    ensures ([word] + InParens(a)) + rest == [word, LParen] + (a + ([RParen] + rest))
  {
  }

  lemma {:induction false} AggregateAccepted(e: Expr, p: seq<Token>, rest: seq<Token>)
    requires e.AggregateExpr? && Bare(e, p)
    ensures Reads(PrimaryRule, p + rest, e, rest)
    decreases e, |p|, 8
  {
    hide Spells, Bare, Ends, Reads, InParens;
    var a := AggregateParts(e, p);
    if e.star {
      ReadCountStar(rest);
      WordCut(AggTok(COUNT), [Star], rest);
      assert [AggTok(COUNT), LParen] + ([Star] + ([RParen] + rest)) == [AggTok(COUNT), LParen, Star, RParen] + rest;
    } else {
      BeginsWith(e.arg.value, 0, a);
      Closing(RParen, rest);
      WholeAccepted(e.arg.value, a, [RParen] + rest);
      ReadAggregateOf(e.kind, e.distinct, a + ([RParen] + rest), e.arg.value, rest);
      WordCut(AggTok(e.kind), Distinct(e.distinct) + a, rest);
      Cat(Distinct(e.distinct), a, [RParen] + rest);
      Cat([AggTok(e.kind), LParen], Distinct(e.distinct), a + ([RParen] + rest));
    }
  }

  lemma {:induction false} CoalesceAccepted(e: Expr, p: seq<Token>, rest: seq<Token>)
    requires e.CoalesceExpr? && Bare(e, p)
    ensures Reads(PrimaryRule, p + rest, e, rest)
    decreases e, |p|, 8
  {
    hide Spells, ListSpells, Bare, Ends, Reads, ReadsList, InParens;
    var a := CoalesceParts(e, p);
    Closing(RParen, rest);
    ListAccepted(e.args, a, [RParen] + rest);
    ReadCoalesced(a + ([RParen] + rest), e.args, rest);
    WordCut(CoalesceTok, a, rest);
  }

  lemma {:induction false} NullifAccepted(e: Expr, p: seq<Token>, rest: seq<Token>)
    requires e.NullifExpr? && Bare(e, p)
    ensures Reads(PrimaryRule, p + rest, e, rest)
    decreases e, |p|, 8
  {
    hide Spells, Bare, Ends, Reads, InParens;
    var a, b := NullifParts(e, p);
    Closing(RParen, rest);
    Closing(Comma, b + ([RParen] + rest));
    WholeAccepted(e.first, a, [Comma] + (b + ([RParen] + rest)));
    WholeAccepted(e.second, b, [RParen] + rest);
    ReadNullifOf(a + ([Comma] + (b + ([RParen] + rest))), e.first, b + ([RParen] + rest), e.second, rest);
    WordCut(NullifTok, a + [Comma] + b, rest);
    Onward3(a, Comma, b, [RParen] + rest);
  }

  lemma {:induction false} CallAccepted(e: Expr, p: seq<Token>, rest: seq<Token>)
    requires e.FunctionCallExpr? && Bare(e, p)
    ensures Reads(PrimaryRule, p + rest, e, rest)
    decreases e, |p|, 8
  {
    hide Spells, ListSpells, Bare, Ends, Reads, ReadsList, InParens;
    var a := CallParts(e, p);
    WordCut(Ident(e.name), a, rest);
    if e.args == [] {
      ReadEmptyCall(e.name, rest);
      assert [Ident(e.name), LParen] + ([] + ([RParen] + rest)) == [Ident(e.name), LParen, RParen] + rest;
    } else {
      Closing(RParen, rest);
      ListAccepted(e.args, a, [RParen] + rest);
      ListBegins(e.args, a);
      ReadCall(e.name, a + ([RParen] + rest), e.args, rest);
    }
  }

  // ----- lists

  lemma ListBegins(es: seq<Expr>, p: seq<Token>)
    requires ListSpells(es, p)
    ensures p != [] && p[0] != RParen
  {
    hide Spells, ListSpells;
    ListOne(es, p);
    if |es| == 1 {
      BeginsWith(es[0], 0, p);
    } else {
      var a, b := ListSplit(es, p);
      BeginsWith(es[0], 0, a);
    }
  }

  lemma {:induction false} ListAccepted(es: seq<Expr>, p: seq<Token>, rest: seq<Token>)
    requires ListSpells(es, p) && Ends(rest) && !Starts(rest, Comma)
    ensures ReadsList(p + rest, es, rest)
    decreases es, |p|, 30
  {
    hide Spells, ListSpells, Ends, Reads, ReadsList, ReadsMore;
    ListOne(es, p);
    if |es| == 1 {
      WholeAccepted(es[0], p, rest);
      assert es == [es[0]];
      ReadNoMore(es, rest);
      ReadListOf(p + rest, es[0], rest, es, rest);
    } else {
      var a, b := ListSplit(es, p);
      var us := [Comma] + (b + rest);
      Closing(Comma, b + rest);
      WholeAccepted(es[0], a, us);
      MoreAccepted([es[0]], es[1..], b, rest);
      assert [es[0]] + es[1..] == es;
      ReadListOf(a + us, es[0], us, es, rest);
      Onward3(a, Comma, b, rest);
    }
  }

  lemma {:induction false} MoreAccepted(done: seq<Expr>, es: seq<Expr>, p: seq<Token>, rest: seq<Token>)
    requires ListSpells(es, p) && Ends(rest) && !Starts(rest, Comma)
    ensures ReadsMore(done, [Comma] + (p + rest), done + es, rest)
    decreases es, |p|, 29
  {
    hide Spells, ListSpells, Ends, Reads, ReadsMore;
    ListOne(es, p);
    if |es| == 1 {
      WholeAccepted(es[0], p, rest);
      assert es == [es[0]];
      ReadNoMore(done + es, rest);
      ReadOneMore(done, p + rest, es[0], rest, done + es, rest);
    } else {
      var a, b := ListSplit(es, p);
      var us := [Comma] + (b + rest);
      Closing(Comma, b + rest);
      WholeAccepted(es[0], a, us);
      MoreAccepted(done + [es[0]], es[1..], b, rest);
      assert (done + [es[0]]) + es[1..] == done + es;
      ReadOneMore(done, a + us, es[0], us, done + es, rest);
      Onward3(a, Comma, b, rest);
    }
  }

  // ----- CASE

  lemma {:induction false} CaseAccepted(e: Expr, p: seq<Token>, rest: seq<Token>)
    requires e.CaseExpr? && Bare(e, p)
    ensures Reads(PrimaryRule, p + rest, e, rest)
    decreases e, |p|, 8
  {
    hide Spells, WhensSpell, Bare, Ends, Reads, ReadsWhens;
    var a, b := CaseParts(e, p);
    Closing(EndTok, rest);
    assert [] + e.whens == e.whens;
    if e.otherwise.None? {
      WhensAccepted([], e.whens, a, [EndTok] + rest);
      ReadCaseEnd(a + ([EndTok] + rest), e.whens, rest);
      CaseCut(a, rest);
    } else {
      var us := b + ([EndTok] + rest);
      WholeAccepted(e.otherwise.value, b, [EndTok] + rest);
      Closing(ElseTok, us);
      WhensAccepted([], e.whens, a, [ElseTok] + us);
      ReadCaseElse(a + ([ElseTok] + us), e.whens, us, e.otherwise.value, rest);
      ElseCut(a, b, rest);
    }
  }

  lemma CaseCut(a: seq<Token>, rest: seq<Token>)
    ensures ([CaseTok] + a + [EndTok]) + rest == [CaseTok] + (a + ([EndTok] + rest))
  {
  }

  lemma ElseCut(a: seq<Token>, b: seq<Token>, rest: seq<Token>)
    ensures ([CaseTok] + a + ([ElseTok] + b) + [EndTok]) + rest
            == [CaseTok] + (a + ([ElseTok] + (b + ([EndTok] + rest))))
  {
    assert ([CaseTok] + a + ([ElseTok] + b) + [EndTok]) + rest
        == [CaseTok] + (a + (([ElseTok] + b) + ([EndTok] + rest)));
    Cat([ElseTok], b, [EndTok] + rest);
  }

  lemma WhenCut(p: seq<Token>, q: seq<Token>, rest: seq<Token>)
    ensures ([WhenTok] + p + [ThenTok] + q) + rest == [WhenTok] + (p + ([ThenTok] + (q + rest)))
  {
  }

  lemma {:induction false} WhensAccepted(done: seq<WhenClause>, whens: seq<WhenClause>, p: seq<Token>,
        rest: seq<Token>)
    requires WhensSpell(whens, p) && Ends(rest) && !Starts(rest, WhenTok)
    ensures ReadsWhens(done, p + rest, done + whens, rest) && Ends(p + rest)
    decreases whens, |p|, 30
  {
    hide Spells, WhenSpells, Ends, Reads, ReadsWhens;
    if whens == [] {
      assert p + rest == rest && done + whens == done;
      ReadNoWhen(done, rest);
    } else {
      var a, b := WhensParts(whens, p);
      WhensAccepted(done + [whens[0]], whens[1..], b, rest);
      assert (done + [whens[0]]) + whens[1..] == done + whens;
      WhenAccepted(done, whens[0], a, b + rest, done + whens, rest);
      Cat(a, b, rest);
    }
  }

  lemma {:induction false} WhenAccepted(done: seq<WhenClause>, w: WhenClause, ts: seq<Token>, us: seq<Token>,
        all: seq<WhenClause>, rest: seq<Token>)
    requires WhenSpells(w, ts) && Ends(us) && ReadsWhens(done + [w], us, all, rest)
    ensures ReadsWhens(done, ts + us, all, rest) && Ends(ts + us)
    decreases w, |ts|, 30
  {
    hide Spells, WhenSpells, Ends, Reads, ReadsWhens;
    var p, q := WhenParts(w, ts);
    var vs := q + us;
    Closing(ThenTok, vs);
    WholeAccepted(w.cond, p, [ThenTok] + vs);
    WholeAccepted(w.result, q, us);
    ReadOneWhen(done, p + ([ThenTok] + vs), w.cond, vs, w.result, us, all, rest);
    Closing(WhenTok, p + ([ThenTok] + vs));
    WhenCut(p, q, us);
  }

  // ----- main results

  lemma SameFront(p: seq<Token>, q: seq<Token>, rest: seq<Token>)
    requires p + rest == q + rest
    ensures p == q
  {
    assert |p| == |q|;
    forall i | 0 <= i < |p| ensures p[i] == q[i] {
      assert (p + rest)[i] == (q + rest)[i];
    }
  }

  /** The parser reads tokens as a tree and stops before the rest exactly when they spell the tree. */
  lemma ReadIffSpelled(e: Expr, p: seq<Token>, rest: seq<Token>)
    requires Ends(rest)
    ensures ReadExpression(p + rest) == Got(e, rest) <==> Spells(e, 0, p)
  {
    hide Spells, Ends, ReadExpression;
    if Spells(e, 0, p) {
      WholeAccepted(e, p, rest);
    }
    if ReadExpression(p + rest) == Got(e, rest) {
      var q := ExpressionSpelled(p + rest);
      SameFront(p, q, rest);
    }
  }

  /** A whole token sequence is read as a tree exactly when it spells the tree. */
  lemma TextIff(e: Expr, ts: seq<Token>)
    ensures ReadExpression(ts) == Got(e, []) <==> Spells(e, 0, ts)
  {
    hide Spells, ReadExpression;
    ReadIffSpelled(e, ts, []);
    assert ts + [] == ts;
  }

  /** The grammar is not ambiguous: no text spells two trees. */
  lemma OneTree(a: Expr, b: Expr, ts: seq<Token>)
    requires Spells(a, 0, ts) && Spells(b, 0, ts)
    ensures a == b
  {
    hide Spells, ReadExpression;
    TextIff(a, ts);
    TextIff(b, ts);
  }
}
