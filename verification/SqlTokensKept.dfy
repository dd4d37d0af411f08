/** Parsing loses nothing but parentheses: whatever the expression grammar accepts, printing the tree gives the tokens
    that were read back in their order. */
module SqlTokensKept {
  import opened Wrappers
  import opened Numbers
  import opened SqlAst
  import opened SqlGrammar

  predicate IsParen(t: Token) { t == LParen || t == RParen }

  /** A token as it is read and printed: floats as the six decimals of the nearest double. */
  function Spell(t: Token): Token { if t.FloatLit? then FloatLit(Spelled(Nearest(t.size))) else t }

  /** A token as it is kept: parentheses are not. */
  function Bare(t: Token): seq<Token> { if IsParen(t) then [] else [Spell(t)] }

  /** The tokens without parentheses, floats as they are read and printed. */
  function Strip(ts: seq<Token>): seq<Token> {
    if ts == [] then [] else Bare(ts[0]) + Strip(ts[1..])
  }

  /** No empty identifier stands before a dot, as it would print like a column without a table; the lexer makes no
      empty identifiers. */
  predicate Named(ts: seq<Token>) { ts == [] || (!(ts[0] == Ident("") && Starts(ts[1..], Dot)) && Named(ts[1..])) }

  lemma {:induction false} StripCat(a: seq<Token>, b: seq<Token>)
    ensures Strip(a + b) == Strip(a) + Strip(b)
  {
    if a == [] {
      assert a + b == b;
    } else {
      assert (a + b)[0] == a[0] && (a + b)[1..] == a[1..] + b;
      StripCat(a[1..], b);
    }
  }

  function Core(e: Expr): seq<Token> { Strip(Print(e)) }

  function CoreList(es: seq<Expr>): seq<Token> { Strip(PrintList(es)) }

  function CoreWhens(whens: seq<WhenClause>): seq<Token> { Strip(PrintWhens(whens)) }

  /** After `before` was taken from the input, reading on from ts makes `out` of it and leaves rest. */
  predicate Kept(before: seq<Token>, ts: seq<Token>, out: seq<Token>, rest: seq<Token>) {
    Named(ts) ==> Named(rest) && before + Strip(ts) == out + Strip(rest)
  }

  lemma Then(before: seq<Token>, ts: seq<Token>, mid: seq<Token>, us: seq<Token>, out: seq<Token>, rest: seq<Token>)
    requires Kept(before, ts, mid, us) && Kept(mid, us, out, rest)
    ensures Kept(before, ts, out, rest)
  {
    hide Strip, Named;
  }

  /** Reading on from a part: what it gives is added to what was taken before. */
  lemma Part(before: seq<Token>, ts: seq<Token>, out: seq<Token>, rest: seq<Token>)
    requires Kept([], ts, out, rest)
    ensures Kept(before, ts, before + out, rest)
  {
    hide Strip, Named;
    assert [] + Strip(ts) == Strip(ts);
    assert before + (out + Strip(rest)) == (before + out) + Strip(rest);
  }

  lemma Taken(before: seq<Token>, ts: seq<Token>)
    requires ts != []
    ensures Kept(before, ts, before + Bare(ts[0]), ts[1..])
  {
    hide Named;
    assert Strip(ts) == Bare(ts[0]) + Strip(ts[1..]);
    StillNamed(ts);
  }

  lemma StillNamed(ts: seq<Token>)
    requires ts != []
    ensures Named(ts) ==> Named(ts[1..])
  {
  }

  lemma Same(before: seq<Token>, ts: seq<Token>)
    ensures Kept(before, ts, before, ts)
  {
  }

  /** One token and then a part. */
  lemma TokenThen(before: seq<Token>, ts: seq<Token>, out: seq<Token>, rest: seq<Token>)
    requires ts != [] && Kept([], ts[1..], out, rest)
    ensures Kept(before, ts, before + Bare(ts[0]) + out, rest)
  {
    hide Kept, Strip, Named;
    var taken := before + Bare(ts[0]);
    Taken(before, ts);
    Part(taken, ts[1..], out, rest);
    Then(before, ts, taken, ts[1..], taken + out, rest);
  }

  /** A part and then one token. */
  lemma ThenToken(before: seq<Token>, ts: seq<Token>, out: seq<Token>, rest: seq<Token>)
    requires Kept(before, ts, out, rest) && rest != []
    ensures Kept(before, ts, out + Bare(rest[0]), rest[1..])
  {
    hide Kept, Strip, Named;
    Taken(out, rest);
    Then(before, ts, out, rest, out + Bare(rest[0]), rest[1..]);
  }

  /** A part and then another. */
  lemma ThenPart(before: seq<Token>, ts: seq<Token>, mid: seq<Token>, us: seq<Token>, out: seq<Token>, rest: seq<Token>)
    requires Kept(before, ts, mid, us) && Kept([], us, out, rest)
    ensures Kept(before, ts, mid + out, rest)
  {
    hide Kept, Strip, Named;
    Part(mid, us, out, rest);
    Then(before, ts, mid, us, mid + out, rest);
  }

  // ----- the printed forms without parentheses

  /** One token more at the end. */
  lemma StripSnoc(a: seq<Token>, t: Token)
    ensures Strip(a + [t]) == Strip(a) + Bare(t)
    ensures Strip([t]) == Bare(t)
  {
    StripCat(a, [t]);
    assert [t][1..] == [];
  }

  lemma NegationCore(a: seq<Token>, negated: bool)
    ensures Strip(a + Negation(negated)) == Strip(a) + Negation(negated)
  {
    StripSnoc(a, NotTok);
    assert a + [] == a;
  }

  lemma BinaryCore(op: BinaryOp, l: Expr, r: Expr)
    ensures Core(BinaryExpr(op, l, r)) == Core(l) + [OpToken(op)] + Core(r)
  {
    hide PrintList, PrintWhens, Strip;
    StripSnoc([LParen] + Print(l) + [OpToken(op)] + Print(r), RParen);
    StripCat([LParen] + Print(l) + [OpToken(op)], Print(r));
    StripSnoc([LParen] + Print(l), OpToken(op));
    StripCat([LParen], Print(l));
    StripSnoc([], LParen);
  }

  lemma UnaryCore(op: UnaryOp, x: Expr)
    ensures Core(UnaryExpr(op, x)) == [UnaryToken(op)] + Core(x)
  {
    hide PrintList, PrintWhens, Strip;
    StripSnoc([UnaryToken(op), LParen] + Print(x), RParen);
    StripCat([UnaryToken(op), LParen], Print(x));
    StripSnoc([UnaryToken(op)], LParen);
    StripSnoc([], UnaryToken(op));
    assert [UnaryToken(op), LParen] == [UnaryToken(op)] + [LParen];
  }

  lemma NullTestCore(x: Expr, negated: bool)
    ensures Core(IsNullExpr(x, negated)) == Core(x) + [IsTok] + Negation(negated) + [NullLit]
  {
    hide PrintList, PrintWhens, Strip, Negation;
    StripSnoc(Print(x) + [IsTok] + Negation(negated), NullLit);
    NegationCore(Print(x) + [IsTok], negated);
    StripSnoc(Print(x), IsTok);
  }

  /** The left side of a test, with the NOT that may follow it. */
  lemma LeftCore(x: Expr, negated: bool)
    ensures Strip([LParen] + Print(x) + Negation(negated)) == Core(x) + Negation(negated)
  {
    hide Print, Strip, Negation;
    NegationCore([LParen] + Print(x), negated);
    StripCat([LParen], Print(x));
    StripSnoc([], LParen);
  }

  lemma InShape(x: Expr, values: seq<Expr>, negated: bool)
    ensures Print(InExpr(x, values, negated))
            == [LParen] + Print(x) + Negation(negated) + [InTok] + [LParen] + PrintList(values) + [RParen] + [RParen]
  {
    hide PrintList, PrintWhens, Negation;
  }

  lemma InCore(x: Expr, values: seq<Expr>, negated: bool)
    ensures Core(InExpr(x, values, negated)) == Core(x) + Negation(negated) + [InTok] + CoreList(values)
  {
    hide Print, PrintList, PrintWhens, Strip, Negation;
    var a := [LParen] + Print(x) + Negation(negated);
    var b := a + [InTok] + [LParen] + PrintList(values);
    InShape(x, values, negated);
    StripSnoc(b + [RParen], RParen);
    StripSnoc(b, RParen);
    StripCat(a + [InTok] + [LParen], PrintList(values));
    StripSnoc(a + [InTok], LParen);
    StripSnoc(a, InTok);
    LeftCore(x, negated);
  }

  lemma BetweenCore(x: Expr, low: Expr, high: Expr, negated: bool)
    ensures Core(BetweenExpr(x, low, high, negated)) == Core(x) + Negation(negated) + [BetweenTok] + Core(low) +
            [AndTok] + Core(high)
  {
    hide PrintList, PrintWhens, Strip, Negation;
    var a := [LParen] + Print(x) + Negation(negated);
    StripSnoc(a + [BetweenTok] + Print(low) + [AndTok] + Print(high), RParen);
    StripCat(a + [BetweenTok] + Print(low) + [AndTok], Print(high));
    StripSnoc(a + [BetweenTok] + Print(low), AndTok);
    StripCat(a + [BetweenTok], Print(low));
    StripSnoc(a, BetweenTok);
    LeftCore(x, negated);
  }

  lemma LikeCore(x: Expr, pattern: Expr, negated: bool)
    ensures Core(LikeExpr(x, pattern, negated)) == Core(x) + Negation(negated) + [LikeTok] + Core(pattern)
  {
    hide PrintList, PrintWhens, Strip, Negation;
    var a := [LParen] + Print(x) + Negation(negated);
    StripSnoc(a + [LikeTok] + Print(pattern), RParen);
    StripCat(a + [LikeTok], Print(pattern));
    StripSnoc(a, LikeTok);
    LeftCore(x, negated);
  }

  /** A word, an opening parenthesis, something inside and the closing parenthesis. */
  lemma CallShape(word: Token, inside: seq<Token>)
    requires Bare(word) == [word]
    ensures Strip([word, LParen] + inside + [RParen]) == [word] + Strip(inside)
  {
    hide Strip;
    StripSnoc([word, LParen] + inside, RParen);
    StripCat([word, LParen], inside);
    assert [word, LParen] == [word] + [LParen];
    StripSnoc([word], LParen);
    StripSnoc([], word);
  }

  lemma CallCore(name: string, args: seq<Expr>)
    ensures Core(FunctionCallExpr(name, args)) == [Ident(name)] + CoreList(args)
  {
    hide PrintList, PrintWhens, Strip;
    CallShape(Ident(name), PrintList(args));
  }

  lemma CoalesceCore(args: seq<Expr>)
    ensures Core(CoalesceExpr(args)) == [CoalesceTok] + CoreList(args)
  {
    hide PrintList, PrintWhens, Strip;
    CallShape(CoalesceTok, PrintList(args));
  }

  lemma PairCore(a: Expr, b: Expr)
    ensures Strip(Print(a) + [Comma] + Print(b)) == Core(a) + [Comma] + Core(b)
  {
    hide Print, Strip;
    StripCat(Print(a) + [Comma], Print(b));
    StripSnoc(Print(a), Comma);
  }

  lemma NullifCore(a: Expr, b: Expr)
    ensures Core(NullifExpr(a, b)) == [NullifTok] + Core(a) + [Comma] + Core(b)
  {
    hide PrintList, PrintWhens, Strip;
    var inside := Print(a) + [Comma] + Print(b);
    assert Print(NullifExpr(a, b)) == [NullifTok, LParen] + inside + [RParen];
    CallShape(NullifTok, inside);
    PairCore(a, b);
  }

  lemma ArgumentCore(x: Expr, distinct: bool)
    ensures Strip((if distinct then [DistinctTok] else []) + Print(x))
            == (if distinct then [DistinctTok] else []) + Core(x)
  {
    hide Print, Strip;
    if distinct {
      StripCat([DistinctTok], Print(x));
      StripSnoc([], DistinctTok);
    } else {
      assert [] + Print(x) == Print(x);
    }
  }

  lemma AggregateShape(kind: AggregateKind, x: Expr, distinct: bool)
    ensures Print(AggregateExpr(kind, Some(x), distinct, false))
            == [AggTok(kind), LParen] + ((if distinct then [DistinctTok] else []) + Print(x)) + [RParen]
  {
    hide PrintList, PrintWhens;
  }

  lemma AggregateCore(kind: AggregateKind, x: Expr, distinct: bool)
    ensures Core(AggregateExpr(kind, Some(x), distinct, false))
            == [AggTok(kind)] + (if distinct then [DistinctTok] else []) + Core(x)
  {
    hide Print, Strip;
    AggregateShape(kind, x, distinct);
    CallShape(AggTok(kind), (if distinct then [DistinctTok] else []) + Print(x));
    ArgumentCore(x, distinct);
  }

  lemma StarCore()
    ensures Core(AggregateExpr(COUNT, None, false, true)) == [AggTok(COUNT), Star]
  {
    hide PrintList, PrintWhens, Strip;
    CallShape(AggTok(COUNT), [Star]);
    StripSnoc([], Star);
  }

  lemma CaseCore(whens: seq<WhenClause>, otherwise: Option<Expr>)
    ensures Core(CaseExpr(whens, otherwise))
            == [CaseTok] + CoreWhens(whens) + (if otherwise.Some? then [ElseTok] + Core(otherwise.value) else []) +
               [EndTok]
  {
    hide PrintList, PrintWhens, Strip;
    var c := [CaseTok] + PrintWhens(whens);
    StripCat([CaseTok], PrintWhens(whens));
    StripSnoc([], CaseTok);
    if otherwise.Some? {
      var d := c + [ElseTok] + Print(otherwise.value);
      assert Print(CaseExpr(whens, otherwise)) == d + [EndTok];
      StripSnoc(d, EndTok);
      StripCat(c + [ElseTok], Print(otherwise.value));
      StripSnoc(c, ElseTok);
    } else {
      assert Print(CaseExpr(whens, otherwise)) == c + [EndTok];
      StripSnoc(c, EndTok);
    }
  }

  lemma ColumnCore(table: string, column: string)
    ensures Core(ColumnRef(table, column)) == if table == "" then [Ident(column)]
            else [Ident(table), Dot, Ident(column)]
  {
    hide PrintList, PrintWhens, Strip;
    var ts := [Ident(table)] + [Dot] + [Ident(column)];
    assert ts == [Ident(table), Dot, Ident(column)];
    StripSnoc([Ident(table)] + [Dot], Ident(column));
    StripSnoc([Ident(table)], Dot);
    StripSnoc([], Ident(table));
  }

  lemma {:induction false} MoreAppend(es: seq<Expr>, x: Expr)
    ensures PrintMore(es + [x]) == PrintMore(es) + ([Comma] + Print(x))
    decreases |es|
  {
    if es == [] {
      assert es + [x] == [x] && [x][1..] == [];
    } else {
      assert (es + [x])[0] == es[0] && (es + [x])[1..] == es[1..] + [x];
      MoreAppend(es[1..], x);
    }
  }

  lemma ListAppend(es: seq<Expr>, x: Expr)
    requires es != []
    ensures CoreList(es + [x]) == CoreList(es) + [Comma] + Core(x)
  {
    hide Print, PrintMore, Strip;
    assert (es + [x])[0] == es[0] && (es + [x])[1..] == es[1..] + [x];
    MoreAppend(es[1..], x);
    assert PrintList(es + [x]) == PrintList(es) + [Comma] + Print(x);
    StripCat(PrintList(es) + [Comma], Print(x));
    StripSnoc(PrintList(es), Comma);
  }

  lemma ListOne(x: Expr)
    ensures CoreList([x]) == Core(x) && CoreList([]) == []
  {
    hide Print;
    assert [x][1..] == [] && [x][0] == x;
    assert PrintMore([]) == [];
    assert PrintList([x]) == Print(x);
  }

  lemma {:induction false} WhensAppend(whens: seq<WhenClause>, w: WhenClause)
    ensures PrintWhens(whens + [w]) == PrintWhens(whens) + PrintWhen(w)
    decreases |whens|
  {
    hide PrintWhen;
    if whens == [] {
      assert whens + [w] == [w] && [w][1..] == [];
    } else {
      assert (whens + [w])[0] == whens[0] && (whens + [w])[1..] == whens[1..] + [w];
      WhensAppend(whens[1..], w);
    }
  }

  lemma WhenCore(whens: seq<WhenClause>, w: WhenClause)
    ensures CoreWhens(whens + [w]) == CoreWhens(whens) + [WhenTok] + Core(w.cond) + [ThenTok] + Core(w.result)
  {
    hide Print, PrintWhens, Strip;
    var a := PrintWhens(whens);
    WhensAppend(whens, w);
    assert PrintWhens(whens + [w]) == a + [WhenTok] + Print(w.cond) + [ThenTok] + Print(w.result);
    StripCat(a + [WhenTok] + Print(w.cond) + [ThenTok], Print(w.result));
    StripSnoc(a + [WhenTok] + Print(w.cond), ThenTok);
    StripCat(a + [WhenTok], Print(w.cond));
    StripSnoc(a, WhenTok);
  }

  // ----- the grammar, rule by rule

  /** The main statement: what the expression rule accepts is, parentheses aside, what its tree prints. */
  lemma {:induction false} ExpressionKept(ts: seq<Token>)
    ensures var r := ReadExpression(ts); r.Got? ==> Kept([], ts, Core(r.value), r.rest)
    decreases |ts|, 10
  {
    OrKept(ts);
  }

  lemma {:induction false} OrKept(ts: seq<Token>)
    ensures var r := ReadOr(ts); r.Got? ==> Kept([], ts, Core(r.value), r.rest)
    decreases |ts|, 9
  {
    hide Kept, Strip, Named, Core, CoreList, CoreWhens, Print, ReadAnd, ReadOrTail;
    var l := ReadAnd(ts);
    AndKept(ts);
    if l.Got? {
      var r := ReadOrTail(l.value, l.rest);
      OrTailKept(l.value, l.rest);
      assert ReadOr(ts) == r;
      if r.Got? { Then([], ts, Core(l.value), l.rest, Core(r.value), r.rest); }
    }
  }

  lemma {:induction false} OrTailKept(left: Expr, ts: seq<Token>)
    ensures var r := ReadOrTail(left, ts); r.Got? ==> Kept(Core(left), ts, Core(r.value), r.rest)
    decreases |ts|, 8
  {
    hide Kept, Strip, Named, Core, CoreList, CoreWhens, Print, ReadAnd;
    if !Starts(ts, OrTok) {
      Same(Core(left), ts);
    } else {
      var x := ReadAnd(ts[1..]);
      AndKept(ts[1..]);
      if x.Got? {
        var b := BinaryExpr(OrOp, left, x.value);
        TokenThen(Core(left), ts, Core(x.value), x.rest);
        BinaryCore(OrOp, left, x.value);
        OrTailKept(b, x.rest);
        var r := ReadOrTail(b, x.rest);
        if r.Got? { Then(Core(left), ts, Core(b), x.rest, Core(r.value), r.rest); }
      }
    }
  }

  lemma {:induction false} AndKept(ts: seq<Token>)
    ensures var r := ReadAnd(ts); r.Got? ==> Kept([], ts, Core(r.value), r.rest)
    decreases |ts|, 8
  {
    hide Kept, Strip, Named, Core, CoreList, CoreWhens, Print, ReadNot, ReadAndTail;
    var l := ReadNot(ts);
    NotKept(ts);
    if l.Got? {
      var r := ReadAndTail(l.value, l.rest);
      AndTailKept(l.value, l.rest);
      assert ReadAnd(ts) == r;
      if r.Got? { Then([], ts, Core(l.value), l.rest, Core(r.value), r.rest); }
    }
  }

  lemma {:induction false} AndTailKept(left: Expr, ts: seq<Token>)
    ensures var r := ReadAndTail(left, ts); r.Got? ==> Kept(Core(left), ts, Core(r.value), r.rest)
    decreases |ts|, 7
  {
    hide Kept, Strip, Named, Core, CoreList, CoreWhens, Print, ReadNot;
    if !Starts(ts, AndTok) {
      Same(Core(left), ts);
    } else {
      var x := ReadNot(ts[1..]);
      NotKept(ts[1..]);
      if x.Got? {
        var b := BinaryExpr(AndOp, left, x.value);
        TokenThen(Core(left), ts, Core(x.value), x.rest);
        BinaryCore(AndOp, left, x.value);
        AndTailKept(b, x.rest);
        var r := ReadAndTail(b, x.rest);
        if r.Got? { Then(Core(left), ts, Core(b), x.rest, Core(r.value), r.rest); }
      }
    }
  }

  lemma {:induction false} NotKept(ts: seq<Token>)
    ensures var r := ReadNot(ts); r.Got? ==> Kept([], ts, Core(r.value), r.rest)
    decreases |ts|, 7
  {
    hide Kept, Strip, Named, Core, CoreList, CoreWhens, Print, ReadComparison;
    if Starts(ts, NotTok) {
      var x := ReadNot(ts[1..]);
      NotKept(ts[1..]);
      if x.Got? {
        TokenThen([], ts, Core(x.value), x.rest);
        UnaryCore(NotOp, x.value);
        assert [] + [NotTok] + Core(x.value) == [NotTok] + Core(x.value);
      }
    } else {
      ComparisonKept(ts);
    }
  }

  lemma {:induction false} ComparisonKept(ts: seq<Token>)
    ensures var r := ReadComparison(ts); r.Got? ==> Kept([], ts, Core(r.value), r.rest)
    decreases |ts|, 6
  {
    hide Kept, Strip, Named, Core, CoreList, CoreWhens, Print, ReadAdditive, ReadCompared, ReadPostfix;
    var l := ReadAdditive(ts);
    AdditiveKept(ts);
    if l.Got? {
      var c := ReadCompared(l.value, l.rest);
      ComparedKept(l.value, l.rest);
      if c.Got? {
        var r := ReadPostfix(c.value, c.rest);
        PostfixKept(c.value, c.rest);
        assert ReadComparison(ts) == r;
        Then([], ts, Core(l.value), l.rest, Core(c.value), c.rest);
        if r.Got? { Then([], ts, Core(c.value), c.rest, Core(r.value), r.rest); }
      }
    }
  }

  lemma CompareToken(t: Token)
    ensures CompareOp(t).Some? ==> OpToken(CompareOp(t).value) == t && Bare(t) == [t]
    ensures AddOpOf(t).Some? ==> OpToken(AddOpOf(t).value) == t && Bare(t) == [t]
    ensures MulOpOf(t).Some? ==> OpToken(MulOpOf(t).value) == t && Bare(t) == [t]
  {
  }

  lemma {:induction false} ComparedKept(left: Expr, ts: seq<Token>)
    ensures var r := ReadCompared(left, ts); r.Got? ==> Kept(Core(left), ts, Core(r.value), r.rest)
    decreases |ts|, 5
  {
    hide Kept, Strip, Named, Core, CoreList, CoreWhens, Print, ReadAdditive, CompareOp, OpToken;
    CompareToken(First(ts));
    var op := CompareOp(First(ts));
    if op.None? {
      Same(Core(left), ts);
    } else {
      NotAtEnd(ts);
      var x := ReadAdditive(ts[1..]);
      AdditiveKept(ts[1..]);
      if x.Got? {
        TokenThen(Core(left), ts, Core(x.value), x.rest);
        BinaryCore(op.value, left, x.value);
      }
    }
  }

  /** The end of input is no operator. */
  lemma NotAtEnd(ts: seq<Token>)
    ensures CompareOp(First(ts)).Some? || AddOpOf(First(ts)).Some? || MulOpOf(First(ts)).Some? ==>
            ts != [] && First(ts) == ts[0]
  {
  }

  lemma {:induction false} PostfixKept(left: Expr, ts: seq<Token>)
    ensures var r := ReadPostfix(left, ts); r.Got? ==> Kept(Core(left), ts, Core(r.value), r.rest)
    decreases |ts|, 5
  {
    hide Kept, Strip, Named, Core, CoreList, CoreWhens, Print, ReadIsNull, ReadTest;
    var r := ReadPostfix(left, ts);
    if Starts(ts, IsTok) {
      Taken(Core(left), ts);
      IsNullKept(left, ts[1..]);
      if r.Got? { Then(Core(left), ts, Core(left) + [IsTok], ts[1..], Core(r.value), r.rest); }
    } else if Starts(ts, NotTok) {
      if Starts(ts[1..], BetweenTok) || Starts(ts[1..], LikeTok) || Starts(ts[1..], InTok) {
        Taken(Core(left), ts);
        TestKept(left, true, ts[1..]);
        if r.Got? { Then(Core(left), ts, Core(left) + [NotTok], ts[1..], Core(r.value), r.rest); }
      }
    } else if Starts(ts, BetweenTok) || Starts(ts, LikeTok) || Starts(ts, InTok) {
      TestKept(left, false, ts);
      assert Core(left) + [] == Core(left);
    } else {
      Same(Core(left), ts);
    }
  }

  lemma IsNullKept(left: Expr, ts: seq<Token>)
    ensures var r := ReadIsNull(left, ts); r.Got? ==> Kept(Core(left) + [IsTok], ts, Core(r.value), r.rest)
  {
    hide Kept, Strip, Named, Core, CoreList, CoreWhens, Print;
    var a, negated := Core(left) + [IsTok], Starts(ts, NotTok);
    var us := if negated then ts[1..] else ts;
    if Starts(us, NullLit) {
      if negated { Taken(a, ts); } else { Same(a, ts); }
      assert Kept(a, ts, a + Negation(negated), us) by { assert a + [] == a; }
      ThenToken(a, ts, a + Negation(negated), us);
      NullTestCore(left, negated);
    }
  }

  lemma {:induction false} TestKept(left: Expr, negated: bool, ts: seq<Token>)
    requires Starts(ts, BetweenTok) || Starts(ts, LikeTok) || Starts(ts, InTok)
    ensures var r := ReadTest(left, negated, ts);
            r.Got? ==> Kept(Core(left) + Negation(negated), ts, Core(r.value), r.rest)
    decreases |ts|, 4
  {
    hide Kept, Strip, Named, Core, CoreList, CoreWhens, Print, ReadBetween, ReadPrimary, ReadList, Negation;
    var a := Core(left) + Negation(negated);
    if ts[0] == BetweenTok {
      var r := ReadBetween(left, negated, ts[1..]);
      BetweenKept(left, negated, ts[1..]);
      Taken(a, ts);
      if r.Got? { Then(a, ts, a + [BetweenTok], ts[1..], Core(r.value), r.rest); }
    } else if ts[0] == LikeTok {
      var p := ReadPrimary(ts[1..]);
      PrimaryKept(ts[1..]);
      if p.Got? {
        TokenThen(a, ts, Core(p.value), p.rest);
        LikeCore(left, p.value, negated);
      }
    } else {
      MembersKept(left, negated, ts);
    }
  }

  lemma {:induction false} MembersKept(left: Expr, negated: bool, ts: seq<Token>)
    requires Starts(ts, InTok)
    ensures var r := ReadTest(left, negated, ts);
            r.Got? ==> Kept(Core(left) + Negation(negated), ts, Core(r.value), r.rest)
    decreases |ts|, 3
  {
    hide Kept, Strip, Named, Core, CoreList, CoreWhens, Print, ReadBetween, ReadPrimary, ReadList, Negation;
    var a := Core(left) + Negation(negated);
    if Starts(ts[1..], LParen) {
      var vs := ReadList(ts[2..]);
      ListKept(ts[2..]);
      if vs.Got? && Starts(vs.rest, RParen) {
        assert ts[1..][1..] == ts[2..];
        Taken(a, ts);
        ThenToken(a, ts, a + [InTok], ts[1..]);
        assert a + [InTok] + [] == a + [InTok];
        ThenPart(a, ts, a + [InTok], ts[2..], CoreList(vs.value), vs.rest);
        ThenToken(a, ts, a + [InTok] + CoreList(vs.value), vs.rest);
        InCore(left, vs.value, negated);
        assert a + [InTok] + CoreList(vs.value) + [] == Core(InExpr(left, vs.value, negated));
      }
    }
  }

  lemma {:induction false} BetweenKept(left: Expr, negated: bool, ts: seq<Token>)
    ensures var r := ReadBetween(left, negated, ts);
            r.Got? ==> Kept(Core(left) + Negation(negated) + [BetweenTok], ts, Core(r.value), r.rest)
    decreases |ts|, 6
  {
    hide Kept, Strip, Named, Core, CoreList, CoreWhens, Print, ReadAdditive, Negation;
    var a := Core(left) + Negation(negated) + [BetweenTok];
    var low := ReadAdditive(ts);
    AdditiveKept(ts);
    if low.Got? && Starts(low.rest, AndTok) {
      var high := ReadAdditive(low.rest[1..]);
      AdditiveKept(low.rest[1..]);
      if high.Got? {
        Part(a, ts, Core(low.value), low.rest);
        ThenToken(a, ts, a + Core(low.value), low.rest);
        ThenPart(a, ts, a + Core(low.value) + [AndTok], low.rest[1..], Core(high.value), high.rest);
        BetweenCore(left, low.value, high.value, negated);
      }
    }
  }

  lemma {:induction false} AdditiveKept(ts: seq<Token>)
    ensures var r := ReadAdditive(ts); r.Got? ==> Kept([], ts, Core(r.value), r.rest)
    decreases |ts|, 5
  {
    hide Kept, Strip, Named, Core, CoreList, CoreWhens, Print, ReadMultiplicative, ReadAdditiveTail;
    var l := ReadMultiplicative(ts);
    MultiplicativeKept(ts);
    if l.Got? {
      var r := ReadAdditiveTail(l.value, l.rest);
      AdditiveTailKept(l.value, l.rest);
      assert ReadAdditive(ts) == r;
      if r.Got? { Then([], ts, Core(l.value), l.rest, Core(r.value), r.rest); }
    }
  }

  lemma {:induction false} AdditiveTailKept(left: Expr, ts: seq<Token>)
    ensures var r := ReadAdditiveTail(left, ts); r.Got? ==> Kept(Core(left), ts, Core(r.value), r.rest)
    decreases |ts|, 4
  {
    hide Kept, Strip, Named, Core, CoreList, CoreWhens, Print, ReadMultiplicative, AddOpOf, OpToken;
    CompareToken(First(ts));
    var op := AddOpOf(First(ts));
    if op.None? {
      Same(Core(left), ts);
    } else {
      NotAtEnd(ts);
      var x := ReadMultiplicative(ts[1..]);
      MultiplicativeKept(ts[1..]);
      if x.Got? {
        var b := BinaryExpr(op.value, left, x.value);
        TokenThen(Core(left), ts, Core(x.value), x.rest);
        BinaryCore(op.value, left, x.value);
        AdditiveTailKept(b, x.rest);
        var r := ReadAdditiveTail(b, x.rest);
        if r.Got? { Then(Core(left), ts, Core(b), x.rest, Core(r.value), r.rest); }
      }
    }
  }

  lemma {:induction false} MultiplicativeKept(ts: seq<Token>)
    ensures var r := ReadMultiplicative(ts); r.Got? ==> Kept([], ts, Core(r.value), r.rest)
    decreases |ts|, 4
  {
    hide Kept, Strip, Named, Core, CoreList, CoreWhens, Print, ReadUnary, ReadMultiplicativeTail;
    var l := ReadUnary(ts);
    UnaryKept(ts);
    if l.Got? {
      var r := ReadMultiplicativeTail(l.value, l.rest);
      MultiplicativeTailKept(l.value, l.rest);
      assert ReadMultiplicative(ts) == r;
      if r.Got? { Then([], ts, Core(l.value), l.rest, Core(r.value), r.rest); }
    }
  }

  lemma {:induction false} MultiplicativeTailKept(left: Expr, ts: seq<Token>)
    ensures var r := ReadMultiplicativeTail(left, ts); r.Got? ==> Kept(Core(left), ts, Core(r.value), r.rest)
    decreases |ts|, 3
  {
    hide Kept, Strip, Named, Core, CoreList, CoreWhens, Print, ReadUnary, MulOpOf, OpToken;
    CompareToken(First(ts));
    var op := MulOpOf(First(ts));
    if op.None? {
      Same(Core(left), ts);
    } else {
      NotAtEnd(ts);
      var x := ReadUnary(ts[1..]);
      UnaryKept(ts[1..]);
      if x.Got? {
        var b := BinaryExpr(op.value, left, x.value);
        TokenThen(Core(left), ts, Core(x.value), x.rest);
        BinaryCore(op.value, left, x.value);
        MultiplicativeTailKept(b, x.rest);
        var r := ReadMultiplicativeTail(b, x.rest);
        if r.Got? { Then(Core(left), ts, Core(b), x.rest, Core(r.value), r.rest); }
      }
    }
  }

  lemma {:induction false} UnaryKept(ts: seq<Token>)
    ensures var r := ReadUnary(ts); r.Got? ==> Kept([], ts, Core(r.value), r.rest)
    decreases |ts|, 3
  {
    hide Kept, Strip, Named, Core, CoreList, CoreWhens, Print, ReadPrimary;
    if Starts(ts, Minus) || Starts(ts, Plus) {
      var x := ReadUnary(ts[1..]);
      UnaryKept(ts[1..]);
      if x.Got? {
        var op := if ts[0] == Minus then NegOp else PosOp;
        TokenThen([], ts, Core(x.value), x.rest);
        UnaryCore(op, x.value);
        assert [] + [ts[0]] + Core(x.value) == [UnaryToken(op)] + Core(x.value);
      }
    } else {
      PrimaryKept(ts);
    }
  }

  // ----- primaries

  /** A token that is a tree by itself. */
  lemma LeafKept(ts: seq<Token>, v: Literal)
    requires ts != [] && PrintLiteral(v) == Bare(ts[0]) == [Spell(ts[0])]
    ensures Kept([], ts, Core(LiteralExpr(v)), ts[1..])
  {
    hide Kept, Strip, Named, Spelled, Nearest;
    Taken([], ts);
    StripSnoc([], Spell(ts[0]));
    if ts[0].FloatLit? {
      NearestIsDouble(ts[0].size);
      SpelledStable(Nearest(ts[0].size));
    }
    assert [] + Bare(ts[0]) == [Spell(ts[0])] == Print(LiteralExpr(v));
  }

  lemma {:induction false} PrimaryKept(ts: seq<Token>)
    ensures var r := ReadPrimary(ts); r.Got? ==> Kept([], ts, Core(r.value), r.rest)
    decreases |ts|, 2
  {
    hide Kept, Strip, Named, Core, CoreList, CoreWhens, Print, ReadExpression, ReadName, ReadAggregate, ReadCase,
         ReadNullif, ReadCoalesce;
    var r := ReadPrimary(ts);
    if ts != [] && r.Got? {
      match ts[0] {
        case IntLit(n) => LeafKept(ts, IntLiteral(n));
        case FloatLit(size) => LeafKept(ts, FloatLiteral(Nearest(size)));
        case StrLit(s) => LeafKept(ts, StringLiteral(s));
        case TrueLit => LeafKept(ts, BoolLiteral(true));
        case FalseLit => LeafKept(ts, BoolLiteral(false));
        case NullLit => LeafKept(ts, NullLiteral);
        case LParen => ParensKept(ts);
        case _ => WordKept(ts);
      }
    }
  }

  lemma {:induction false} ParensKept(ts: seq<Token>)
    requires Starts(ts, LParen)
    ensures var r := ReadPrimary(ts); r.Got? ==> Kept([], ts, Core(r.value), r.rest)
    decreases |ts|, 1
  {
    hide Kept, Strip, Named, Core, CoreList, CoreWhens, Print, ReadExpression, ReadName, ReadAggregate, ReadCase,
         ReadNullif, ReadCoalesce;
    var x := ReadExpression(ts[1..]);
    ExpressionKept(ts[1..]);
    if x.Got? && Starts(x.rest, RParen) {
      TokenThen([], ts, Core(x.value), x.rest);
      assert [] + [] + Core(x.value) == Core(x.value);
      ThenToken([], ts, Core(x.value), x.rest);
      assert Core(x.value) + [] == Core(x.value);
    }
  }

  /** The forms that begin with a word: the word is taken, and the rest is kept by the rule for it. */
  lemma {:induction false} WordKept(ts: seq<Token>)
    requires ts != [] && (ts[0].CaseTok? || ts[0].CoalesceTok? || ts[0].NullifTok? || ts[0].AggTok? || ts[0].Ident?)
    ensures var r := ReadPrimary(ts); r.Got? ==> Kept([], ts, Core(r.value), r.rest)
    decreases |ts|, 1
  {
    hide Kept, Strip, Named, Core, CoreList, CoreWhens, Print, ReadExpression, ReadName, ReadAggregate, ReadCase,
         ReadNullif, ReadCoalesce;
    var r := ReadPrimary(ts);
    Taken([], ts);
    assert [] + [ts[0]] == [ts[0]];
    match ts[0] {
      case CaseTok => CaseKept(ts[1..]);
      case CoalesceTok => CoalesceKept(ts[1..]);
      case NullifTok => NullifKept(ts[1..]);
      case AggTok(kind) => AggregateKept(kind, ts[1..]);
      case Ident(name) =>
        if name == "" && Starts(ts[1..], Dot) { EmptyName(ts, r); } else { NameKept(name, ts[1..]); }
    }
    if r.Got? && !(ts[0] == Ident("") && Starts(ts[1..], Dot)) { Then([], ts, [ts[0]], ts[1..], Core(r.value), r.rest);
    }
  }

  lemma EmptyName(ts: seq<Token>, r: Parse<Expr>)
    requires Starts(ts, Ident("")) && Starts(ts[1..], Dot)
    ensures r.Got? ==> Kept([], ts, Core(r.value), r.rest)
  {
    hide Strip, Core;
  }

  lemma {:induction false} NameKept(name: string, ts: seq<Token>)
    requires name == "" ==> !Starts(ts, Dot)
    ensures var r := ReadName(name, ts); r.Got? ==> Kept([Ident(name)], ts, Core(r.value), r.rest)
    decreases |ts|, 12
  {
    hide Kept, Strip, Named, Core, CoreList, CoreWhens, Print, ReadList;
    var a := [Ident(name)];
    if Starts(ts, LParen) {
      Taken(a, ts);
      assert a + [] == a;
      if Starts(ts[1..], RParen) {
        ThenToken(a, ts, a, ts[1..]);
        assert ts[1..][1..] == ts[2..];
        ListOne(LiteralExpr(NullLiteral));
        CallCore(name, []);
      } else {
        var args := ReadList(ts[1..]);
        ListKept(ts[1..]);
        if args.Got? && Starts(args.rest, RParen) {
          ThenPart(a, ts, a, ts[1..], CoreList(args.value), args.rest);
          ThenToken(a, ts, a + CoreList(args.value), args.rest);
          CallCore(name, args.value);
          assert a + CoreList(args.value) + [] == a + CoreList(args.value);
        }
      }
    } else if Starts(ts, Dot) {
      if First(ts[1..]).Ident? { QualifiedKept(name, ts); }
    } else {
      Same(a, ts);
      ColumnCore("", name);
    }
  }

  lemma QualifiedKept(name: string, ts: seq<Token>)
    requires name != "" && Starts(ts, Dot) && First(ts[1..]).Ident?
    ensures Kept([Ident(name)], ts, Core(ColumnRef(name, ts[1].name)), ts[2..])
  {
    hide Kept, Strip, Named, Core, CoreList, CoreWhens, Print;
    var a := [Ident(name)];
    Taken(a, ts);
    ThenToken(a, ts, a + [Dot], ts[1..]);
    assert ts[1..][0] == ts[1] && ts[1..][1..] == ts[2..];
    ColumnCore(name, ts[1].name);
    assert a + [Dot] + [ts[1]] == [Ident(name), Dot, Ident(ts[1].name)];
  }

  lemma {:induction false} ListKept(ts: seq<Token>)
    ensures var r := ReadList(ts); r.Got? ==> r.value != [] && Kept([], ts, CoreList(r.value), r.rest)
    decreases |ts|, 11
  {
    hide Kept, Strip, Named, Core, CoreList, CoreWhens, Print, ReadExpression, ReadMore;
    var x := ReadExpression(ts);
    ExpressionKept(ts);
    if x.Got? {
      var r := ReadMore([x.value], x.rest);
      MoreKept([x.value], x.rest);
      ListOne(x.value);
      if r.Got? { Then([], ts, CoreList([x.value]), x.rest, CoreList(r.value), r.rest); }
    }
  }

  lemma {:induction false} MoreKept(es: seq<Expr>, ts: seq<Token>)
    requires es != []
    ensures var r := ReadMore(es, ts); r.Got? ==> r.value != [] && Kept(CoreList(es), ts, CoreList(r.value), r.rest)
    decreases |ts|, 10
  {
    hide Kept, Strip, Named, Core, CoreList, CoreWhens, Print, ReadExpression;
    if !Starts(ts, Comma) {
      Same(CoreList(es), ts);
    } else {
      var x := ReadExpression(ts[1..]);
      ExpressionKept(ts[1..]);
      if x.Got? {
        TokenThen(CoreList(es), ts, Core(x.value), x.rest);
        ListAppend(es, x.value);
        MoreKept(es + [x.value], x.rest);
        var r := ReadMore(es + [x.value], x.rest);
        if r.Got? { Then(CoreList(es), ts, CoreList(es + [x.value]), x.rest, CoreList(r.value), r.rest); }
      }
    }
  }

  lemma {:induction false} AggregateKept(kind: AggregateKind, ts: seq<Token>)
    ensures var r := ReadAggregate(kind, ts); r.Got? ==> Kept([AggTok(kind)], ts, Core(r.value), r.rest)
    decreases |ts|, 12
  {
    hide Kept, Strip, Named, Core, CoreList, CoreWhens, Print, ReadExpression;
    var a := [AggTok(kind)];
    if Starts(ts, LParen) {
      Taken(a, ts);
      assert a + [] == a;
      if kind.COUNT? && Starts(ts[1..], Star) {
        if Starts(ts[2..], RParen) {
          assert ts[1..][1..] == ts[2..] && ts[2..][1..] == ts[3..];
          ThenToken(a, ts, a, ts[1..]);
          ThenToken(a, ts, a + [Star], ts[2..]);
          StarCore();
          assert a + [Star] + [] == [AggTok(COUNT), Star];
        }
      } else {
        ArgumentKept(kind, ts);
      }
    }
  }

  lemma {:induction false} ArgumentKept(kind: AggregateKind, ts: seq<Token>)
    requires Starts(ts, LParen) && !(kind.COUNT? && Starts(ts[1..], Star))
    ensures var r := ReadAggregate(kind, ts); r.Got? ==> Kept([AggTok(kind)], ts, Core(r.value), r.rest)
    decreases |ts|, 11
  {
    hide Kept, Strip, Named, Core, CoreList, CoreWhens, Print, ReadExpression;
    var a, distinct := [AggTok(kind)], Starts(ts[1..], DistinctTok);
    var d := if distinct then [DistinctTok] else [];
    var us := if distinct then ts[2..] else ts[1..];
    var x := ReadExpression(us);
    ExpressionKept(us);
    Taken(a, ts);
    assert a + [] == a;
    if x.Got? && Starts(x.rest, RParen) {
      if distinct {
        assert ts[1..][1..] == ts[2..];
        ThenToken(a, ts, a, ts[1..]);
      }
      assert Kept(a, ts, a + d, us);
      ThenPart(a, ts, a + d, us, Core(x.value), x.rest);
      ThenToken(a, ts, a + d + Core(x.value), x.rest);
      AggregateCore(kind, x.value, distinct);
      assert a + d + Core(x.value) + [] == a + d + Core(x.value);
    }
  }

  lemma {:induction false} CaseKept(ts: seq<Token>)
    ensures var r := ReadCase(ts); r.Got? ==> Kept([CaseTok], ts, Core(r.value), r.rest)
    decreases |ts|, 13
  {
    hide Kept, Strip, Named, Core, CoreList, CoreWhens, Print, ReadWhens, ReadElse;
    var w := ReadWhens([], ts);
    WhensKept([], ts);
    if w.Got? {
      var r := ReadElse(w.value, w.rest);
      ElseKept(w.value, w.rest);
      NoWhens();
      Part([CaseTok], ts, CoreWhens(w.value), w.rest);
      if r.Got? { Then([CaseTok], ts, [CaseTok] + CoreWhens(w.value), w.rest, Core(r.value), r.rest); }
    }
  }

  lemma NoWhens()
    ensures CoreWhens([]) == []
  {
    assert PrintWhens([]) == [];
  }

  lemma {:induction false} WhensKept(whens: seq<WhenClause>, ts: seq<Token>)
    ensures var r := ReadWhens(whens, ts); r.Got? ==> Kept(CoreWhens(whens), ts, CoreWhens(r.value), r.rest)
    decreases |ts|, 11
  {
    hide Kept, Strip, Named, Core, CoreList, CoreWhens, Print, ReadWhen;
    if !Starts(ts, WhenTok) {
      Same(CoreWhens(whens), ts);
    } else {
      var w := ReadWhen(ts[1..]);
      WhenKept(ts[1..]);
      if w.Got? {
        var out := Core(w.value.cond) + [ThenTok] + Core(w.value.result);
        TokenThen(CoreWhens(whens), ts, out, w.rest);
        WhenCore(whens, w.value);
        assert CoreWhens(whens) + [WhenTok] + out == CoreWhens(whens + [w.value]);
        WhensKept(whens + [w.value], w.rest);
        var r := ReadWhens(whens + [w.value], w.rest);
        if r.Got? { Then(CoreWhens(whens), ts, CoreWhens(whens + [w.value]), w.rest, CoreWhens(r.value), r.rest); }
      }
    }
  }

  lemma {:induction false} WhenKept(ts: seq<Token>)
    ensures var r := ReadWhen(ts);
            r.Got? ==> Kept([], ts, Core(r.value.cond) + [ThenTok] + Core(r.value.result), r.rest)
    decreases |ts|, 11
  {
    hide Kept, Strip, Named, Core, CoreList, CoreWhens, Print, ReadExpression;
    var c := ReadExpression(ts);
    ExpressionKept(ts);
    if c.Got? && Starts(c.rest, ThenTok) {
      var x := ReadExpression(c.rest[1..]);
      ExpressionKept(c.rest[1..]);
      if x.Got? {
        ThenToken([], ts, Core(c.value), c.rest);
        ThenPart([], ts, Core(c.value) + [ThenTok], c.rest[1..], Core(x.value), x.rest);
      }
    }
  }

  lemma {:induction false} ElseKept(whens: seq<WhenClause>, ts: seq<Token>)
    ensures var r := ReadElse(whens, ts); r.Got? ==> Kept([CaseTok] + CoreWhens(whens), ts, Core(r.value), r.rest)
    decreases |ts|, 11
  {
    hide Kept, Strip, Named, Core, CoreList, CoreWhens, Print, ReadExpression;
    var a := [CaseTok] + CoreWhens(whens);
    if Starts(ts, ElseTok) {
      var x := ReadExpression(ts[1..]);
      ExpressionKept(ts[1..]);
      if x.Got? && Starts(x.rest, EndTok) {
        TokenThen(a, ts, Core(x.value), x.rest);
        ThenToken(a, ts, a + [ElseTok] + Core(x.value), x.rest);
        CaseCore(whens, Some(x.value));
        assert a + [ElseTok] + Core(x.value) == a + ([ElseTok] + Core(x.value));
      }
    } else if Starts(ts, EndTok) {
      Taken(a, ts);
      CaseCore(whens, None);
      assert a + [] == a;
    }
  }

  lemma {:induction false} CoalesceKept(ts: seq<Token>)
    ensures var r := ReadCoalesce(ts); r.Got? ==> Kept([CoalesceTok], ts, Core(r.value), r.rest)
    decreases |ts|, 12
  {
    hide Kept, Strip, Named, Core, CoreList, CoreWhens, Print, ReadList;
    var a := [CoalesceTok];
    if Starts(ts, LParen) {
      var args := ReadList(ts[1..]);
      ListKept(ts[1..]);
      if args.Got? && Starts(args.rest, RParen) {
        Taken(a, ts);
        assert a + [] == a;
        ThenPart(a, ts, a, ts[1..], CoreList(args.value), args.rest);
        ThenToken(a, ts, a + CoreList(args.value), args.rest);
        CoalesceCore(args.value);
        assert a + CoreList(args.value) + [] == a + CoreList(args.value);
      }
    }
  }

  lemma {:induction false} NullifKept(ts: seq<Token>)
    ensures var r := ReadNullif(ts); r.Got? ==> Kept([NullifTok], ts, Core(r.value), r.rest)
    decreases |ts|, 12
  {
    hide Kept, Strip, Named, Core, CoreList, CoreWhens, Print, ReadExpression;
    var n := [NullifTok];
    if Starts(ts, LParen) {
      var a := ReadExpression(ts[1..]);
      ExpressionKept(ts[1..]);
      if a.Got? && Starts(a.rest, Comma) {
        var b := ReadExpression(a.rest[1..]);
        ExpressionKept(a.rest[1..]);
        if b.Got? && Starts(b.rest, RParen) {
          var out := n + Core(a.value) + [Comma] + Core(b.value);
          Taken(n, ts);
          assert n + [] == n;
          ThenPart(n, ts, n, ts[1..], Core(a.value), a.rest);
          ThenToken(n, ts, n + Core(a.value), a.rest);
          ThenPart(n, ts, n + Core(a.value) + [Comma], a.rest[1..], Core(b.value), b.rest);
          ThenToken(n, ts, out, b.rest);
          NullifCore(a.value, b.value);
          assert out + [] == out;
        }
      }
    }
  }

  /** Whatever the expression rule accepts, printing the tree gives the tokens that were read, in order, with nothing
      lost or added but parentheses. */
  lemma ParsePrintKeepsTokens(ts: seq<Token>)
    requires Named(ts) && ReadExpression(ts).Got?
    ensures Strip(ts) == Strip(Print(ReadExpression(ts).value)) + Strip(ReadExpression(ts).rest)
  {
    hide Strip, Print, ReadExpression;
    ExpressionKept(ts);
    assert [] + Strip(ts) == Strip(ts);
  }
}
