/** Every tree, whatever its parts, is read back from what it prints exactly when it is well formed. */
module SqlWholeTree {
  import opened Wrappers
  import opened Numbers
  import opened SqlAst
  import opened SqlGrammar
  import opened SqlRoundTrip
  import opened SqlBalance
  import K = SqlTokensKept

  /** Trees that a NULL test, BETWEEN, LIKE or IN makes. */
  predicate IsTest(e: Expr) { e.IsNullExpr? || e.InExpr? || e.BetweenExpr? || e.LikeExpr? }

  // ----- what cannot be read

  lemma FailsUp(ts: seq<Token>)
    requires !Starts(ts, Minus) && !Starts(ts, Plus) && ReadPrimary(ts) == Fail
    ensures ReadUnary(ts) == Fail && ReadMultiplicative(ts) == Fail && ReadAdditive(ts) == Fail
            && ReadComparison(ts) == Fail
  {
    hide ReadPrimary;
    assert ReadUnary(ts) == Fail;
    assert ReadMultiplicative(ts) == Fail;
    assert ReadAdditive(ts) == Fail;
  }

  lemma TestFails(ts: seq<Token>)
    requires !Starts(ts, NotTok) && ReadComparison(ts) == Fail
    ensures ReadNot(ts) == Fail && ReadExpression(ts) == Fail
  {
    hide ReadComparison;
    assert ReadNot(ts) == Fail;
    assert ReadAnd(ts) == Fail;
    assert ReadOr(ts) == Fail;
  }

  /** NOT starts no operand. */
  lemma NotIsNoOperand(ts: seq<Token>)
    requires Starts(ts, NotTok)
    ensures ReadPrimary(ts) == Fail && ReadUnary(ts) == Fail && ReadMultiplicative(ts) == Fail
            && ReadAdditive(ts) == Fail
  {
    hide ReadExpression, ReadName, ReadAggregate, ReadCase, ReadNullif, ReadCoalesce;
    assert ReadPrimary(ts) == Fail;
    FailsUp(ts);
  }

  lemma NothingToRead(ts: seq<Token>)
    requires Starts(ts, RParen) || Starts(ts, Star)
    ensures ReadExpression(ts) == Fail
  {
    hide ReadExpression, ReadName, ReadAggregate, ReadCase, ReadNullif, ReadCoalesce;
    assert ReadPrimary(ts) == Fail;
    FailsUp(ts);
    TestFails(ts);
  }

  lemma ListFails(ts: seq<Token>)
    requires ReadExpression(ts) == Fail
    ensures ReadList(ts) == Fail
  {
    hide ReadExpression;
  }

  lemma PrimaryIs(ts: seq<Token>, e: Expr, rest: seq<Token>)
    ensures Reads(PrimaryRule, ts, e, rest) ==> ReadPrimary(ts) == Got(e, rest)
  {
    hide ReadPrimary;
  }

  lemma BetweenIs(y: Expr, negated: bool, us: seq<Token>)
    ensures ReadTest(y, negated, [BetweenTok] + us) == ReadBetween(y, negated, us)
  {
    hide ReadBetween;
    assert ([BetweenTok] + us)[1..] == us;
  }

  lemma LikeIs(y: Expr, negated: bool, us: seq<Token>)
    ensures var c, p := ReadTest(y, negated, [LikeTok] + us), ReadPrimary(us);
            if p.Fail? then c.Fail? else c == Got(LikeExpr(y, p.value, negated), p.rest)
  {
    hide ReadPrimary;
    assert ([LikeTok] + us)[1..] == us;
  }

  lemma AggregateStarts(kind: AggregateKind, arg: Option<Expr>, distinct: bool, star: bool, rest: seq<Token>)
    requires star || arg.None?
    ensures Print(AggregateExpr(kind, arg, distinct, star)) + rest
            == [AggTok(kind), LParen] + (if distinct && !star then [DistinctTok] else []) +
               (if star then [Star] else []) + [RParen] + rest
  {
    hide PrintList, PrintWhens;
  }

  /** Neither a star after a name other than COUNT nor an empty argument can be read. */
  lemma NoArgument(kind: AggregateKind, distinct: bool, star: bool, rest: seq<Token>)
    requires star ==> !kind.COUNT? && !distinct
    ensures ReadPrimary([AggTok(kind), LParen] + (if distinct then [DistinctTok] else []) +
            (if star then [Star] else []) + [RParen] + rest)
            == Fail
  {
    hide ReadExpression, ReadName, ReadCase, ReadNullif, ReadCoalesce;
    var ts := [AggTok(kind), LParen] + (if distinct then [DistinctTok] else []) + (if star then [Star] else []) +
        [RParen] + rest;
    var us := (if star then [Star] else []) + ([RParen] + rest);
    NothingToRead(us);
    if distinct {
      assert ts[1..][1..][0] == DistinctTok && ts[1..][2..] == us;
    } else {
      assert ts[1..][1..] == us;
    }
    assert ReadAggregate(kind, ts[1..]) == Fail;
  }

  // ----- one place in the input

  /** A token that stays when parentheses are dropped. */
  predicate Marked(ts: seq<Token>) { ts != [] && !K.IsParen(ts[0]) }

  /** The input does not go on with a parenthesis. */
  predicate Clear(ts: seq<Token>) { ts == [] || Marked(ts) }

  lemma {:induction false} StripShrinks(ts: seq<Token>, us: seq<Token>)
    requires Suffix(ts, us)
    ensures |K.Strip(us)| <= |K.Strip(ts)|
    ensures |us| < |ts| && Marked(ts) ==> |K.Strip(us)| < |K.Strip(ts)|
    ensures K.Named(ts) ==> K.Named(us)
    decreases |ts|
  {
    if |us| < |ts| {
      assert ts[1..][|ts| - 1 - |us|..] == us;
      StripShrinks(ts[1..], us);
    } else {
      assert us == ts;
    }
  }

  lemma SamePlace(ts: seq<Token>, us: seq<Token>, vs: seq<Token>)
    requires Suffix(ts, us) && Suffix(ts, vs) && Clear(us) && Clear(vs) && |K.Strip(us)| == |K.Strip(vs)|
    ensures us == vs
  {
    hide K.Strip;
    if |us| <= |vs| {
      assert vs[|vs| - |us|..] == us;
      StripShrinks(vs, us);
    } else {
      assert us[|us| - |vs|..] == vs;
      StripShrinks(us, vs);
    }
  }

  lemma SuffixCat(a: seq<Token>, b: seq<Token>)
    ensures Suffix(a + b, b)
  {
  }

  /** A tree read off what it prints ends where the print ends. */
  lemma PlaceAfter(x: Expr, t: seq<Token>, us: seq<Token>)
    requires K.Named(Print(x) + t) && K.Kept([], Print(x) + t, K.Core(x), us) && Suffix(Print(x) + t, us)
    requires Clear(t) && Clear(us)
    ensures us == t
  {
    hide K.Strip, K.Named, Print;
    K.StripCat(Print(x), t);
    SuffixCat(Print(x), t);
    assert [] + K.Strip(Print(x) + t) == K.Strip(Print(x) + t);
    SamePlace(Print(x) + t, us, t);
  }

  /** A tree read up to where its print ends was read from where the print starts. */
  lemma PlaceBefore(ts: seq<Token>, t: seq<Token>, us: seq<Token>, y: Expr, rest: seq<Token>)
    requires K.Named(ts) && Suffix(ts, t) && Suffix(ts, us) && Marked(t) && Marked(us)
    requires t[1..] == Print(y) + rest && K.Kept([], us[1..], K.Core(y), rest)
    ensures us == t
  {
    hide K.Named, Print;
    K.StripCat(Print(y), rest);
    StripShrinks(ts, us);
    K.StillNamed(us);
    assert [] + K.Strip(us[1..]) == K.Strip(us[1..]);
    assert |K.Strip(us)| == 1 + |K.Strip(us[1..])| && |K.Strip(t)| == 1 + |K.Strip(t[1..])|;
    SamePlace(ts, us, t);
  }

  // ----- what the levels add to the level below

  /** What the last round of an operator loop made: m and the operand after ws give e. */
  predicate LastRound(left: Expr, ts: seq<Token>, e: Expr, rest: seq<Token>, m: Expr, ws: seq<Token>, y: Parse<Expr>) {
    && Marked(ws) && Suffix(ts, ws) && y.Got? && y.rest == rest && |rest| < |ws|
    && e.BinaryExpr? && e.left == m && e.right == y.value
    && ((ws == ts && m == left) || (|ws| < |ts| && m.BinaryExpr?))
  }

  lemma {:induction false} OrRounds(left: Expr, ts: seq<Token>, e: Expr, rest: seq<Token>)
      returns (m: Expr, ws: seq<Token>)
    requires Starts(ts, OrTok) && ReadOrTail(left, ts) == Got(e, rest)
    ensures ws != [] && LastRound(left, ts, e, rest, m, ws, ReadAnd(ws[1..])) && e.op.OrOp?
    decreases |ts|
  {
    hide ReadAnd;
    var x := ReadAnd(ts[1..]);
    AndPast(ts[1..]);
    SuffixThen(ts, ts[1..], x.rest);
    if Starts(x.rest, OrTok) {
      m, ws := OrRounds(BinaryExpr(OrOp, left, x.value), x.rest, e, rest);
      SuffixThen(ts, x.rest, ws);
    } else {
      m, ws := left, ts;
    }
  }

  lemma {:induction false} AndRounds(left: Expr, ts: seq<Token>, e: Expr, rest: seq<Token>)
      returns (m: Expr, ws: seq<Token>)
    requires Starts(ts, AndTok) && ReadAndTail(left, ts) == Got(e, rest)
    ensures ws != [] && LastRound(left, ts, e, rest, m, ws, ReadNot(ws[1..])) && e.op.AndOp?
    decreases |ts|
  {
    hide ReadNot;
    var x := ReadNot(ts[1..]);
    NotPast(ts[1..]);
    SuffixThen(ts, ts[1..], x.rest);
    if Starts(x.rest, AndTok) {
      m, ws := AndRounds(BinaryExpr(AndOp, left, x.value), x.rest, e, rest);
      SuffixThen(ts, x.rest, ws);
    } else {
      m, ws := left, ts;
    }
  }

  lemma {:induction false} SumRounds(left: Expr, ts: seq<Token>, e: Expr, rest: seq<Token>)
      returns (m: Expr, ws: seq<Token>)
    requires AddOpOf(First(ts)).Some? && ReadAdditiveTail(left, ts) == Got(e, rest)
    ensures ws != [] && LastRound(left, ts, e, rest, m, ws, ReadMultiplicative(ws[1..]))
    decreases |ts|
  {
    hide ReadMultiplicative, AddOpOf;
    OperatorToken(ts);
    var x := ReadMultiplicative(ts[1..]);
    MultiplicativePast(ts[1..]);
    SuffixThen(ts, ts[1..], x.rest);
    if AddOpOf(First(x.rest)).Some? {
      m, ws := SumRounds(BinaryExpr(AddOpOf(First(ts)).value, left, x.value), x.rest, e, rest);
      SuffixThen(ts, x.rest, ws);
    } else {
      m, ws := left, ts;
    }
  }

  lemma {:induction false} ProductRounds(left: Expr, ts: seq<Token>, e: Expr, rest: seq<Token>)
      returns (m: Expr, ws: seq<Token>)
    requires MulOpOf(First(ts)).Some? && ReadMultiplicativeTail(left, ts) == Got(e, rest)
    ensures ws != [] && LastRound(left, ts, e, rest, m, ws, ReadUnary(ws[1..]))
    decreases |ts|
  {
    hide ReadUnary, MulOpOf;
    OperatorToken(ts);
    var x := ReadUnary(ts[1..]);
    UnaryPast(ts[1..]);
    SuffixThen(ts, ts[1..], x.rest);
    if MulOpOf(First(x.rest)).Some? {
      m, ws := ProductRounds(BinaryExpr(MulOpOf(First(ts)).value, left, x.value), x.rest, e, rest);
      SuffixThen(ts, x.rest, ws);
    } else {
      m, ws := left, ts;
    }
  }

  /** The upper level accepts what the lower one did, or reads on from there. */
  predicate Adds(lower: Parse<Expr>, upper: Parse<Expr>) {
    upper.Got? ==> lower.Got? && (upper == lower || (|upper.rest| < |lower.rest| && upper.value.BinaryExpr?))
  }

  lemma OrAdds(ts: seq<Token>)
    ensures Adds(ReadAnd(ts), ReadOr(ts))
  {
    hide ReadAnd, ReadOrTail;
    var a, r := ReadAnd(ts), ReadOr(ts);
    if r.Got? {
      assert r == ReadOrTail(a.value, a.rest);
      if Starts(a.rest, OrTok) { var m, ws := OrRounds(a.value, a.rest, r.value, r.rest);
      } else { NoOr(a.value, a.rest); }
    }
  }

  lemma NoOr(e: Expr, ts: seq<Token>)
    requires !Starts(ts, OrTok)
    ensures ReadOrTail(e, ts) == Got(e, ts)
  {
  }

  lemma AndAdds(ts: seq<Token>)
    ensures Adds(ReadNot(ts), ReadAnd(ts))
  {
    hide ReadNot, ReadAndTail;
    var a, r := ReadNot(ts), ReadAnd(ts);
    if r.Got? {
      assert r == ReadAndTail(a.value, a.rest);
      if Starts(a.rest, AndTok) { var m, ws := AndRounds(a.value, a.rest, r.value, r.rest);
      } else { NoAnd(a.value, a.rest); }
    }
  }

  lemma NoAnd(e: Expr, ts: seq<Token>)
    requires !Starts(ts, AndTok)
    ensures ReadAndTail(e, ts) == Got(e, ts)
  {
  }

  lemma SumAdds(ts: seq<Token>)
    ensures Adds(ReadMultiplicative(ts), ReadAdditive(ts))
  {
    hide ReadMultiplicative, ReadAdditiveTail, AddOpOf;
    var a, r := ReadMultiplicative(ts), ReadAdditive(ts);
    if r.Got? {
      assert r == ReadAdditiveTail(a.value, a.rest);
      if AddOpOf(First(a.rest)).Some? {
        var m, ws := SumRounds(a.value, a.rest, r.value, r.rest);
      } else {
        NoSum(a.value, a.rest);
      }
    }
  }

  lemma NoSum(e: Expr, ts: seq<Token>)
    requires AddOpOf(First(ts)).None?
    ensures ReadAdditiveTail(e, ts) == Got(e, ts)
  {
  }

  lemma ProductAdds(ts: seq<Token>)
    ensures Adds(ReadUnary(ts), ReadMultiplicative(ts))
  {
    hide ReadUnary, ReadMultiplicativeTail, MulOpOf;
    var a, r := ReadUnary(ts), ReadMultiplicative(ts);
    if r.Got? {
      assert r == ReadMultiplicativeTail(a.value, a.rest);
      if MulOpOf(First(a.rest)).Some? {
        var m, ws := ProductRounds(a.value, a.rest, r.value, r.rest);
      } else {
        NoProduct(a.value, a.rest);
      }
    }
  }

  lemma NoProduct(e: Expr, ts: seq<Token>)
    requires MulOpOf(First(ts)).None?
    ensures ReadMultiplicativeTail(e, ts) == Got(e, ts)
  {
  }

  /** A comparison adds its right side. */
  lemma ComparedAdds(left: Expr, ts: seq<Token>)
    ensures var r := ReadCompared(left, ts);
            r.Got? ==> r == Got(left, ts) || (ts != [] && LastRound(left, ts, r.value, r.rest, left, ts,
            ReadAdditive(ts[1..])))
  {
    hide ReadAdditive, CompareOp;
    OperatorToken(ts);
  }

  lemma TestMakes(left: Expr, negated: bool, ts: seq<Token>)
    requires Starts(ts, BetweenTok) || Starts(ts, LikeTok) || Starts(ts, InTok)
    ensures var r := ReadTest(left, negated, ts); r.Got? ==> IsTest(r.value) && r.value.expr == left
  {
    hide ReadAdditive, ReadPrimary, ReadList;
  }

  lemma NullTestMakes(left: Expr, ts: seq<Token>)
    ensures var r := ReadIsNull(left, ts); r.Got? ==> r.value.IsNullExpr? && r.value.expr == left
  {
  }

  /** A test adds a word and what follows it to its left side. */
  predicate AddsTest(left: Expr, ts: seq<Token>, r: Parse<Expr>) {
    r.Got? ==> Marked(ts) && |r.rest| < |ts| && IsTest(r.value) && r.value.expr == left
  }

  lemma AfterIs(left: Expr, ts: seq<Token>)
    requires Starts(ts, IsTok)
    ensures AddsTest(left, ts, ReadPostfix(left, ts))
  {
    hide ReadIsNull;
    NullTestMakes(left, ts[1..]);
  }

  lemma AfterNot(left: Expr, ts: seq<Token>)
    requires Starts(ts, NotTok)
    ensures AddsTest(left, ts, ReadPostfix(left, ts))
  {
    hide ReadTest;
    var us := ts[1..];
    if Starts(us, BetweenTok) || Starts(us, LikeTok) || Starts(us, InTok) { TestMakes(left, true, us); }
  }

  lemma AfterWord(left: Expr, ts: seq<Token>)
    requires Starts(ts, BetweenTok) || Starts(ts, LikeTok) || Starts(ts, InTok)
    ensures AddsTest(left, ts, ReadPostfix(left, ts))
  {
    hide ReadTest;
    TestMakes(left, false, ts);
  }

  lemma PostfixAdds(left: Expr, ts: seq<Token>)
    ensures ReadPostfix(left, ts) == Got(left, ts) || AddsTest(left, ts, ReadPostfix(left, ts))
  {
    hide ReadIsNull, ReadTest, AddsTest;
    if Starts(ts, IsTok) {
      AfterIs(left, ts);
    } else if Starts(ts, NotTok) {
      AfterNot(left, ts);
    } else if Starts(ts, BetweenTok) || Starts(ts, LikeTok) || Starts(ts, InTok) {
      AfterWord(left, ts);
    }
  }

  lemma ComparisonAdds(ts: seq<Token>)
    ensures var a, r := ReadAdditive(ts), ReadComparison(ts);
            r.Got? ==> a.Got? && (r == a || (|r.rest| < |a.rest| && (r.value.BinaryExpr? || IsTest(r.value))))
  {
    hide ReadAdditive, ReadCompared, ReadPostfix;
    var a := ReadAdditive(ts);
    if a.Got? {
      var c := ReadCompared(a.value, a.rest);
      ComparedAdds(a.value, a.rest);
      if c.Got? { PostfixAdds(c.value, c.rest); }
    }
  }

  lemma NotIs(ts: seq<Token>)
    ensures !Starts(ts, NotTok) ==> ReadNot(ts) == ReadComparison(ts)
    ensures ReadNot(ts).Got? && !ReadNot(ts).value.UnaryExpr? ==> ReadNot(ts) == ReadComparison(ts)
    ensures Starts(ts, NotTok) && ReadNot(ts).Got?
            ==> ReadNot(ts[1..]).Got? && ReadNot(ts)
                == Got(UnaryExpr(NotOp, ReadNot(ts[1..]).value), ReadNot(ts[1..]).rest)
  {
    hide ReadComparison;
  }

  lemma UnaryIs(ts: seq<Token>)
    ensures !Starts(ts, Minus) && !Starts(ts, Plus) ==> ReadUnary(ts) == ReadPrimary(ts)
    ensures ReadUnary(ts).Got? && !ReadUnary(ts).value.UnaryExpr? ==> ReadUnary(ts) == ReadPrimary(ts)
    ensures (Starts(ts, Minus) || Starts(ts, Plus)) && ReadUnary(ts).Got?
            ==> ReadUnary(ts[1..]).Got? && ReadUnary(ts).value.UnaryExpr?
                && ReadUnary(ts[1..]) == Got(ReadUnary(ts).value.operand, ReadUnary(ts).rest)
  {
    hide ReadPrimary;
  }

  lemma AllAdd(ts: seq<Token>)
    ensures ReadExpression(ts) == ReadOr(ts)
    ensures Adds(ReadAnd(ts), ReadOr(ts)) && Adds(ReadNot(ts), ReadAnd(ts))
    ensures var a, r := ReadAdditive(ts), ReadComparison(ts);
            r.Got? ==> a.Got? && (r == a || (|r.rest| < |a.rest| && (r.value.BinaryExpr? || IsTest(r.value))))
    ensures Adds(ReadMultiplicative(ts), ReadAdditive(ts)) && Adds(ReadUnary(ts), ReadMultiplicative(ts))
  {
    hide ReadOr, ReadAnd, ReadNot, ReadComparison, ReadAdditive, ReadMultiplicative, ReadUnary, Adds;
    OrAdds(ts);
    AndAdds(ts);
    ComparisonAdds(ts);
    SumAdds(ts);
    ProductAdds(ts);
  }

  /** Before an opening parenthesis every rule reads a parenthesised expression first. */
  lemma FirstPrimary(rule: Rule, ts: seq<Token>, e: Expr, rest: seq<Token>)
    requires Starts(ts, LParen) && Reads(rule, ts, e, rest)
    ensures var p := ReadPrimary(ts); p.Got? && |rest| <= |p.rest| && (rest == p.rest ==> p.value == e)
  {
    hide ReadExpression, ReadOr, ReadAnd, ReadNot, ReadComparison, ReadAdditive, ReadMultiplicative, ReadUnary,
         ReadPrimary;
    AllAdd(ts);
    NotIs(ts);
    UnaryIs(ts);
  }

  /** The rules below the comparison. */
  predicate Low(rule: Rule) { rule.AdditiveRule? || rule.MultiplicativeRule? || rule.UnaryRule? || rule.PrimaryRule? }

  /** Below the comparison, a tree that no loop makes comes from the operand. */
  lemma LowDescends(rule: Rule, ts: seq<Token>, e: Expr, rest: seq<Token>)
    requires Reads(rule, ts, e, rest) && !e.BinaryExpr? && Low(rule)
    ensures ReadUnary(ts) == Got(e, rest) || ReadPrimary(ts) == Got(e, rest)
  {
    hide ReadExpression, ReadOr, ReadAnd, ReadNot, ReadComparison, ReadAdditive, ReadMultiplicative, ReadUnary,
         ReadPrimary;
    SumAdds(ts);
    ProductAdds(ts);
  }

  /** Above it, such a tree comes from the comparison unless it starts with NOT. */
  lemma HighDescends(rule: Rule, ts: seq<Token>, e: Expr, rest: seq<Token>)
    requires Reads(rule, ts, e, rest) && !e.BinaryExpr? && !Low(rule) && (e.UnaryExpr? ==> !Starts(ts, NotTok))
    ensures ReadComparison(ts) == Got(e, rest)
  {
    hide ReadOr, ReadAnd, ReadNot, ReadComparison, ReadAdditive, ReadMultiplicative, ReadUnary, ReadPrimary;
    OrAdds(ts);
    AndAdds(ts);
    NotIs(ts);
  }

  /** A tree that no loop makes comes from the level below. */
  lemma Descend(rule: Rule, ts: seq<Token>, e: Expr, rest: seq<Token>)
    requires Reads(rule, ts, e, rest) && !e.BinaryExpr? && (e.UnaryExpr? ==> !Starts(ts, NotTok))
    ensures if e.UnaryExpr? then ReadUnary(ts) == Got(e, rest) || ReadPrimary(ts) == Got(e, rest)
            else ReadPrimary(ts) == Got(e, rest) || (IsTest(e) && !Low(rule) && ReadComparison(ts) == Got(e, rest))
  {
    hide Reads, ReadComparison, ReadAdditive, ReadUnary, ReadPrimary;
    UnaryIs(ts);
    if Low(rule) {
      LowDescends(rule, ts, e, rest);
    } else {
      HighDescends(rule, ts, e, rest);
      ComparisonAdds(ts);
      if ReadAdditive(ts) == Got(e, rest) {
        SumReads(ts, e, rest);
        LowDescends(AdditiveRule, ts, e, rest);
      }
    }
  }

  lemma SumReads(ts: seq<Token>, e: Expr, rest: seq<Token>)
    requires ReadAdditive(ts) == Got(e, rest)
    ensures Reads(AdditiveRule, ts, e, rest)
  {
    hide ReadAdditive;
  }

  // ----- what starts with a parenthesis

  /** No operator and no test. */
  predicate Closed(r: Parse<Expr>) { r.Got? ==> !Enclosed(r.value) && !r.value.IsNullExpr? && !r.value.UnaryExpr? }

  lemma CaseMakes(ts: seq<Token>)
    ensures Closed(ReadCase(ts))
  {
    hide ReadExpression, ReadWhens;
    var w := ReadWhens([], ts);
    if w.Got? { assert Closed(ReadElse(w.value, w.rest)); }
  }

  lemma NameMakes(name: string, ts: seq<Token>)
    ensures Closed(ReadName(name, ts))
  {
    hide ReadList;
  }

  lemma AggregateMakes(kind: AggregateKind, ts: seq<Token>)
    ensures Closed(ReadAggregate(kind, ts))
  {
    hide ReadExpression;
  }

  lemma WordsMake(ts: seq<Token>)
    ensures Closed(ReadCoalesce(ts)) && Closed(ReadNullif(ts))
  {
    hide ReadExpression, ReadList;
  }

  predicate Word(t: Token) { t.CaseTok? || t.CoalesceTok? || t.NullifTok? || t.AggTok? || t.Ident? }

  lemma LiteralMakes(ts: seq<Token>)
    requires !Starts(ts, LParen) && !Word(First(ts))
    ensures ReadPrimary(ts).Got? ==> ReadPrimary(ts).value.LiteralExpr?
  {
    hide ReadExpression, ReadName, ReadAggregate, ReadCase, ReadNullif, ReadCoalesce;
  }

  lemma WordMakes(ts: seq<Token>)
    requires ts != [] && Word(ts[0])
    ensures Closed(ReadPrimary(ts))
  {
    hide ReadExpression, ReadName, ReadAggregate, ReadCase, ReadNullif, ReadCoalesce, Closed;
    var us := ts[1..];
    if ts[0].AggTok? {
      AggregateMakes(ts[0].kind, us);
    } else if ts[0].Ident? {
      NameMakes(ts[0].name, us);
    } else if ts[0].CaseTok? {
      CaseMakes(us);
    } else {
      WordsMake(us);
    }
  }

  /** A primary that starts with no parenthesis is no operator and no test. */
  lemma PrimaryMakes(ts: seq<Token>)
    requires !Starts(ts, LParen)
    ensures Closed(ReadPrimary(ts))
  {
    hide ReadPrimary;
    if Word(First(ts)) { WordMakes(ts); } else { LiteralMakes(ts); }
  }

  /** Only enclosed trees and NULL tests of them start with a parenthesis. */
  lemma OpenedBy(e: Expr)
    ensures Print(e)[0] == LParen ==> Enclosed(e) || e.IsNullExpr?
    ensures Enclosed(e) ==> Print(e)[0] == LParen
    ensures e.IsNullExpr? ==> Print(e)[0] == Print(e.expr)[0]
    ensures Print(e)[0] != Star && Print(e)[0] != DistinctTok && Print(e)[0] != RParen
  {
    if e.LiteralExpr? {
      LiteralShape(e.value);
    } else if e.IsNullExpr? {
      NullTestStart(e.expr, e.negated);
      OpenedBy(e.expr);
    } else {
      hide Print;
      FirstPrinted(e);
    }
  }

  lemma LiteralShape(v: Literal)
    ensures var t := Print(LiteralExpr(v))[0]; t != LParen && t != Star && t != DistinctTok && t != RParen
  {
    hide PrintList, PrintWhens, Spelled;
  }

  lemma NullTestStart(x: Expr, negated: bool)
    ensures Print(IsNullExpr(x, negated))[0] == Print(x)[0]
  {
    hide PrintList, PrintWhens;
  }

  /** What is read between two parentheses that belong together fills the place between them. */
  lemma Grouped(rule: Rule, inner: seq<Token>, e: Expr, rest: seq<Token>)
    requires Reads(rule, [LParen] + inner, e, rest) && Past(inner, [RParen] + rest)
    ensures ReadExpression(inner) == Got(e, [RParen] + rest)
  {
    hide Reads, Past, ReadExpression, ReadPrimary;
    GroupEnds(inner, rest);
    FirstPrimary(rule, [LParen] + inner, e, rest);
  }

  lemma GroupEnds(inner: seq<Token>, rest: seq<Token>)
    requires Past(inner, [RParen] + rest)
    ensures var p := ReadPrimary([LParen] + inner);
            p.Got? ==> p.rest == rest && ReadExpression(inner) == Got(p.value, [RParen] + rest)
  {
    hide Past, ReadExpression, ReadName, ReadAggregate, ReadCase, ReadNullif, ReadCoalesce;
    var x := ReadExpression(inner);
    assert ([LParen] + inner)[1..] == inner && ([RParen] + rest)[1..] == rest;
    if x.Got? && Starts(x.rest, RParen) {
      ExpressionPast(inner);
      OnePlace(inner, x.rest, [RParen] + rest);
    }
  }

  /** A primary at the start of a printed tree does not make an operator or test that goes beyond the print. */
  lemma {:induction false} NoPrimary(x: Expr, us: seq<Token>)
    ensures var p := ReadPrimary(Print(x) + us);
            p.Got? && |p.rest| < |us| ==> !Enclosed(p.value) && !p.value.IsNullExpr?
    ensures Enclosed(x) ==> var p := ReadPrimary(Print(x) + us); p.Got? ==> p.rest == us
    decreases x
  {
    hide Print, Past, ReadPrimary;
    var ts := Print(x) + us;
    OpenedBy(x);
    assert ts[0] == Print(x)[0];
    if Enclosed(x) {
      var inner := Enclosing(x, us);
      PlainIsPast(inner, [RParen] + us);
      GroupEnds(inner, us);
    } else if x.IsNullExpr? {
      NullTestShape(x.expr, x.negated, us);
      NoPrimary(x.expr, [IsTok] + Negation(x.negated) + [NullLit] + us);
    } else {
      PrimaryMakes(ts);
    }
  }

  lemma PlainIsPast(ts: seq<Token>, rest: seq<Token>)
    requires Plain(ts, rest)
    ensures Past(ts, rest)
  {
  }

  // ----- operators: where the left side ends

  /** The operator of a printed operation and the rest of it. */
  function From(op: BinaryOp, r: Expr, rest: seq<Token>): (t: seq<Token>)
    ensures Marked(t) && t[1..] == Print(r) + rest
  {
    [OpToken(op)] + (Print(r) + rest)
  }

  /** When the loop's last round read r, the left side was read from all before the operator, in no round. */
  lemma AtOperator(rule: Rule, op: BinaryOp, l: Expr, r: Expr, rest: seq<Token>, v: Expr, us: seq<Token>,
        ws: seq<Token>, y: Parse<Expr>)
    requires K.Named(Print(l) + From(op, r, rest)) && Reads(rule, Print(l) + From(op, r, rest), v, us)
    requires Suffix(Print(l) + From(op, r, rest), us)
    requires LastRound(v, us, BinaryExpr(op, l, r), rest, l, ws, y) && K.Kept([], ws[1..], K.Core(r), rest)
    ensures ws == us == From(op, r, rest) && v == l
  {
    hide Reads, Print, K.Strip, K.Named, K.Kept, K.Core, ReadPrimary, From;
    var t := From(op, r, rest);
    SuffixCat(Print(l), t);
    SuffixThen(Print(l) + t, us, ws);
    PlaceBefore(Print(l) + t, t, ws, r, rest);
    if ws != us {
      OpenedBy(l);
      FirstPrimary(rule, Print(l) + t, v, us);
      NoPrimary(l, t);
      assert false;
    }
  }

  lemma SplitOr(op: BinaryOp, l: Expr, r: Expr, rest: seq<Token>)
    requires K.Named(Print(l) + From(op, r, rest))
    requires ReadOr(Print(l) + From(op, r, rest)) == Got(BinaryExpr(op, l, r), rest)
    requires ReadOr(Print(l) + From(op, r, rest)) != ReadAnd(Print(l) + From(op, r, rest))
    ensures op.OrOp?
    ensures Reads(AndRule, Print(l) + From(op, r, rest), l, From(op, r, rest))
            && Reads(AndRule, Print(r) + rest, r, rest)
  {
    hide ReadExpression, ReadAnd, ReadOrTail, ReadNot, ReadComparison, ReadAdditive, ReadMultiplicative, ReadUnary,
         ReadPrimary, K.Strip, K.Named, K.Kept, K.Core, Print, From;
    var ts := Print(l) + From(op, r, rest);
    var a := ReadAnd(ts);
    AndPast(ts);
    assert ReadOrTail(a.value, a.rest) == Got(BinaryExpr(op, l, r), rest);
    if !Starts(a.rest, OrTok) { NoOr(a.value, a.rest); }
    var m, ws := OrRounds(a.value, a.rest, BinaryExpr(op, l, r), rest);
    K.AndKept(ws[1..]);
    AtOperator(AndRule, op, l, r, rest, a.value, a.rest, ws, ReadAnd(ws[1..]));
  }

  lemma SplitAnd(op: BinaryOp, l: Expr, r: Expr, rest: seq<Token>)
    requires K.Named(Print(l) + From(op, r, rest))
    requires ReadAnd(Print(l) + From(op, r, rest)) == Got(BinaryExpr(op, l, r), rest)
    requires ReadAnd(Print(l) + From(op, r, rest)) != ReadNot(Print(l) + From(op, r, rest))
    ensures op.AndOp?
    ensures Reads(NotRule, Print(l) + From(op, r, rest), l, From(op, r, rest))
            && Reads(NotRule, Print(r) + rest, r, rest)
  {
    hide ReadExpression, ReadAndTail, ReadNot, ReadComparison, ReadCompared, ReadPostfix, ReadAdditive,
         ReadAdditiveTail, ReadMultiplicative, ReadMultiplicativeTail, ReadUnary, ReadPrimary, K.Strip, K.Named,
         K.Kept, K.Core, Print, From, AddOpOf, MulOpOf;
    var ts := Print(l) + From(op, r, rest);
    var a := ReadNot(ts);
    NotPast(ts);
    assert ReadAndTail(a.value, a.rest) == Got(BinaryExpr(op, l, r), rest);
    if !Starts(a.rest, AndTok) { NoAnd(a.value, a.rest); }
    var m, ws := AndRounds(a.value, a.rest, BinaryExpr(op, l, r), rest);
    K.NotKept(ws[1..]);
    AtOperator(NotRule, op, l, r, rest, a.value, a.rest, ws, ReadNot(ws[1..]));
  }

  lemma SplitComparison(op: BinaryOp, l: Expr, r: Expr, rest: seq<Token>)
    requires K.Named(Print(l) + From(op, r, rest))
    requires ReadComparison(Print(l) + From(op, r, rest)) == Got(BinaryExpr(op, l, r), rest)
    requires ReadComparison(Print(l) + From(op, r, rest)) != ReadAdditive(Print(l) + From(op, r, rest))
    ensures Reads(AdditiveRule, Print(l) + From(op, r, rest), l, From(op, r, rest))
            && Reads(AdditiveRule, Print(r) + rest, r, rest)
  {
    hide ReadExpression, ReadAnd, ReadAndTail, ReadNot, ReadCompared, ReadPostfix, ReadAdditive,
         ReadAdditiveTail, ReadMultiplicative, ReadMultiplicativeTail, ReadUnary, ReadPrimary, K.Strip, K.Named,
         K.Kept, K.Core, Print, From, AddOpOf, MulOpOf;
    var ts := Print(l) + From(op, r, rest);
    var a := ReadAdditive(ts);
    AdditivePast(ts);
    var c := ReadCompared(a.value, a.rest);
    PostfixAdds(c.value, c.rest);
    ComparedAdds(a.value, a.rest);
    K.AdditiveKept(a.rest[1..]);
    AtOperator(AdditiveRule, op, l, r, rest, a.value, a.rest, a.rest, ReadAdditive(a.rest[1..]));
  }

  lemma SplitSum(op: BinaryOp, l: Expr, r: Expr, rest: seq<Token>)
    requires K.Named(Print(l) + From(op, r, rest))
    requires ReadAdditive(Print(l) + From(op, r, rest)) == Got(BinaryExpr(op, l, r), rest)
    requires ReadAdditive(Print(l) + From(op, r, rest)) != ReadMultiplicative(Print(l) + From(op, r, rest))
    ensures Reads(MultiplicativeRule, Print(l) + From(op, r, rest), l, From(op, r, rest))
            && Reads(MultiplicativeRule, Print(r) + rest, r, rest)
  {
    hide ReadExpression, ReadAnd, ReadAndTail, ReadNot, ReadComparison, ReadCompared, ReadPostfix,
         ReadAdditiveTail, ReadMultiplicative, ReadMultiplicativeTail, ReadUnary, ReadPrimary, K.Strip, K.Named,
         K.Kept, K.Core, Print, From, AddOpOf, MulOpOf;
    var ts := Print(l) + From(op, r, rest);
    var a := ReadMultiplicative(ts);
    MultiplicativePast(ts);
    assert ReadAdditiveTail(a.value, a.rest) == Got(BinaryExpr(op, l, r), rest);
    if AddOpOf(First(a.rest)).None? { NoSum(a.value, a.rest); }
    var m, ws := SumRounds(a.value, a.rest, BinaryExpr(op, l, r), rest);
    K.MultiplicativeKept(ws[1..]);
    AtOperator(MultiplicativeRule, op, l, r, rest, a.value, a.rest, ws, ReadMultiplicative(ws[1..]));
  }

  lemma SplitProduct(op: BinaryOp, l: Expr, r: Expr, rest: seq<Token>)
    requires K.Named(Print(l) + From(op, r, rest))
    requires ReadMultiplicative(Print(l) + From(op, r, rest)) == Got(BinaryExpr(op, l, r), rest)
    requires ReadMultiplicative(Print(l) + From(op, r, rest)) != ReadUnary(Print(l) + From(op, r, rest))
    ensures Reads(UnaryRule, Print(l) + From(op, r, rest), l, From(op, r, rest))
            && Reads(UnaryRule, Print(r) + rest, r, rest)
  {
    hide ReadExpression, ReadAnd, ReadAndTail, ReadNot, ReadComparison, ReadCompared, ReadPostfix, ReadAdditive,
         ReadAdditiveTail, ReadMultiplicativeTail, ReadUnary, ReadPrimary, K.Strip, K.Named,
         K.Kept, K.Core, Print, From, AddOpOf, MulOpOf;
    var ts := Print(l) + From(op, r, rest);
    var a := ReadUnary(ts);
    UnaryPast(ts);
    assert ReadMultiplicativeTail(a.value, a.rest) == Got(BinaryExpr(op, l, r), rest);
    if MulOpOf(First(a.rest)).None? { NoProduct(a.value, a.rest); }
    var m, ws := ProductRounds(a.value, a.rest, BinaryExpr(op, l, r), rest);
    K.UnaryKept(ws[1..]);
    AtOperator(UnaryRule, op, l, r, rest, a.value, a.rest, ws, ReadUnary(ws[1..]));
  }

  /** An operation read off the print of its sides was read as these sides, both by the same rule. */
  lemma Split(op: BinaryOp, l: Expr, r: Expr, rest: seq<Token>) returns (rule: Rule)
    requires K.Named(Print(l) + From(op, r, rest))
    requires ReadExpression(Print(l) + From(op, r, rest)) == Got(BinaryExpr(op, l, r), rest)
    ensures Reads(rule, Print(l) + From(op, r, rest), l, From(op, r, rest)) && Reads(rule, Print(r) + rest, r, rest)
    ensures op.OrOp? || op.AndOp? || rule.AdditiveRule? || rule.MultiplicativeRule? || rule.UnaryRule?
  {
    hide Reads, ReadExpression, ReadOr, ReadAnd, ReadNot, ReadComparison, ReadAdditive, ReadMultiplicative, ReadUnary,
         ReadPrimary, K.Named, Print, From, Adds;
    var t := From(op, r, rest);
    var ts := Print(l) + t;
    assert ReadExpression(ts) == ReadOr(ts) by { AllAdd(ts); }
    if ReadOr(ts) != ReadAnd(ts) {
      SplitOr(op, l, r, rest);
      rule := AndRule;
    } else if ReadAnd(ts) != ReadNot(ts) {
      SplitAnd(op, l, r, rest);
      rule := NotRule;
    } else {
      NotIs(ts);
      if ReadComparison(ts) != ReadAdditive(ts) {
        SplitComparison(op, l, r, rest);
        rule := AdditiveRule;
      } else if ReadAdditive(ts) != ReadMultiplicative(ts) {
        SplitSum(op, l, r, rest);
        rule := MultiplicativeRule;
      } else if ReadMultiplicative(ts) != ReadUnary(ts) {
        SplitProduct(op, l, r, rest);
        rule := UnaryRule;
      } else {
        UnaryIs(ts);
        NoPrimary(l, t);
        FromLonger(op, r, rest);
        assert false;
      }
    }
  }

  lemma FromLonger(op: BinaryOp, r: Expr, rest: seq<Token>)
    ensures |From(op, r, rest)| > |rest|
  {
    hide Print;
  }

  // ----- tests: where the left side ends

  /** A test read off the print of its left side was read as that left side, by the additive rule. */
  lemma TestLeft(x: Expr, t: seq<Token>, e: Expr, rest: seq<Token>)
    requires K.Named(Print(x) + t) && Marked(t) && |rest| < |t| && IsTest(e) && e.expr == x
    requires ReadComparison(Print(x) + t) == Got(e, rest)
    ensures Reads(AdditiveRule, Print(x) + t, x, t) && ReadPostfix(x, t) == Got(e, rest)
  {
    hide ReadExpression, ReadAnd, ReadNot, ReadCompared, ReadPostfix, ReadAdditive, ReadMultiplicative, ReadUnary,
         ReadPrimary, K.Strip, K.Named, K.Kept, K.Core, Print, Past;
    var ts := Print(x) + t;
    var a := ReadAdditive(ts);
    var c := ReadCompared(a.value, a.rest);
    PostfixAdds(c.value, c.rest);
    ComparedAdds(a.value, a.rest);
    if c.rest == rest {
      assert a == Got(e, rest);
      Descend(AdditiveRule, ts, e, rest);
      NoPrimary(x, t);
      assert false;
    }
    K.AdditiveKept(ts);
    K.ComparedKept(a.value, a.rest);
    K.Then([], ts, K.Core(a.value), a.rest, K.Core(c.value), c.rest);
    AdditivePast(ts);
    ComparedPast(a.value, a.rest);
    PastThen(ts, a.rest, c.rest);
    PastIsSuffix(ts, c.rest);
    PlaceAfter(x, t, c.rest);
    if c != a {
      OpenedBy(x);
      NoPrimary(x, t);
      FirstPrimary(AdditiveRule, ts, a.value, a.rest);
      assert false;
    }
  }

  lemma PastIsSuffix(ts: seq<Token>, rest: seq<Token>)
    requires Past(ts, rest)
    ensures Suffix(ts, rest)
  {
  }

  /** NULL tests and NOT are no operands, and signed trees are no primaries. */
  lemma OperandLevel(rule: Rule, x: Expr, t: seq<Token>)
    requires Reads(rule, Print(x) + t, x, t) && Low(rule)
    ensures Level(x) <= 1 && (rule.PrimaryRule? ==> Level(x) == 0)
  {
    hide ReadExpression, ReadAdditive, ReadMultiplicative, ReadUnary, Print;
    var ts := Print(x) + t;
    if x.IsNullExpr? {
      Descend(rule, ts, x, t);
      NullTestShape(x.expr, x.negated, t);
      NoPrimary(x.expr, [IsTok] + Negation(x.negated) + [NullLit] + t);
      assert false;
    } else if x.UnaryExpr? {
      UnaryShape(x.uop, x.operand, t);
      if x.uop.NotOp? { NotIsNoOperand(ts); }
      assert rule.PrimaryRule? ==> false;
    } else if x.LiteralExpr? && Signed(x.value) {
      SignFirst(x.value);
      assert rule.PrimaryRule? ==> false;
    }
  }

  lemma SignFirst(v: Literal)
    requires Signed(v)
    ensures Print(LiteralExpr(v))[0] == Minus
  {
    hide PrintList, PrintWhens, Spelled;
  }

  /** A NULL test is read as its operand, by the additive rule, and IS [NOT] NULL. */
  lemma NullTestParts(rule: Rule, x: Expr, negated: bool, rest: seq<Token>)
    requires Reads(rule, Print(IsNullExpr(x, negated)) + rest, IsNullExpr(x, negated), rest)
    requires K.Named(Print(IsNullExpr(x, negated)) + rest)
    ensures var t := [IsTok] + Negation(negated) + [NullLit] + rest;
            Print(IsNullExpr(x, negated)) + rest == Print(x) + t && Reads(AdditiveRule, Print(x) + t, x, t)
  {
    hide Reads, Print, K.Named, ReadPostfix, ReadComparison, ReadPrimary, Negation;
    var e, t := IsNullExpr(x, negated), [IsTok] + Negation(negated) + [NullLit] + rest;
    NullTestShape(x, negated, rest);
    Descend(rule, Print(x) + t, e, rest);
    NoPrimary(x, t);
    TestLeft(x, t, e, rest);
  }

  /** What an enclosed tree was read from. */
  lemma EnclosedParts(rule: Rule, e: Expr, inner: seq<Token>, rest: seq<Token>)
    requires Enclosed(e) && Print(e) + rest == [LParen] + inner && Reads(rule, Print(e) + rest, e, rest)
    ensures ReadExpression(inner) == Got(e, [RParen] + rest)
  {
    hide Print, Reads, Plain;
    var ins := Enclosing(e, rest);
    assert ([LParen] + ins)[1..] == ins && ([LParen] + inner)[1..] == inner;
    PlainIsPast(ins, [RParen] + rest);
    Grouped(rule, inner, e, rest);
  }

  /** A test was read as its left side, by the additive rule, and what comes after it. */
  lemma TestParts(rule: Rule, e: Expr, x: Expr, t: seq<Token>, rest: seq<Token>)
    requires IsTest(e) && Enclosed(e) && e.expr == x && Print(e) + rest == [LParen] + (Print(x) + t)
    requires Reads(rule, Print(e) + rest, e, rest) && K.Named(Print(e) + rest) && Marked(t) && |t| > |rest| + 1
    ensures K.Named(Print(x) + t)
    ensures Reads(AdditiveRule, Print(x) + t, x, t) && ReadPostfix(x, t) == Got(e, [RParen] + rest)
  {
    hide Reads, Print, ReadPostfix, ReadComparison, ReadPrimary, K.Named, ReadExpression;
    var inner := Print(x) + t;
    EnclosedParts(rule, e, inner, rest);
    SuffixCat([LParen], inner);
    StripShrinks([LParen] + inner, inner);
    ExpressionIs(inner, e, [RParen] + rest);
    Descend(ExpressionRule, inner, e, [RParen] + rest);
    NoPrimary(x, t);
    TestLeft(x, t, e, [RParen] + rest);
  }

  lemma ExpressionIs(ts: seq<Token>, e: Expr, rest: seq<Token>)
    ensures Reads(ExpressionRule, ts, e, rest) <==> ReadExpression(ts) == Got(e, rest)
  {
    hide ReadExpression;
  }

  lemma BinaryParts(rule: Rule, op: BinaryOp, l: Expr, r: Expr, rest: seq<Token>) returns (inside: Rule)
    requires Reads(rule, Print(BinaryExpr(op, l, r)) + rest, BinaryExpr(op, l, r), rest)
    requires K.Named(Print(BinaryExpr(op, l, r)) + rest)
    ensures var t := From(op, r, [RParen] + rest);
            K.Named(Print(l) + t) && Reads(inside, Print(l) + t, l, t)
    ensures var us := Print(r) + ([RParen] + rest); K.Named(us) && Reads(inside, us, r, [RParen] + rest)
    ensures op.OrOp? || op.AndOp? || Low(inside)
  {
    hide Reads, Print, K.Named, ReadExpression, From;
    var t := From(op, r, [RParen] + rest);
    FromIs(op, r, [RParen] + rest);
    BinaryShape(op, l, r, rest);
    EnclosedParts(rule, BinaryExpr(op, l, r), Print(l) + t, rest);
    StillNamed([LParen], Print(l) + t);
    StillNamed(Print(l), t);
    StillNamed([OpToken(op)], Print(r) + ([RParen] + rest));
    inside := Split(op, l, r, [RParen] + rest);
  }

  lemma FromIs(op: BinaryOp, r: Expr, rest: seq<Token>)
    ensures From(op, r, rest) == [OpToken(op)] + (Print(r) + rest)
  {
  }

  /** Everything that follows a part of the input is named when the input is. */
  lemma StillNamed(a: seq<Token>, b: seq<Token>)
    requires K.Named(a + b)
    ensures K.Named(b)
  {
    SuffixCat(a, b);
    StripShrinks(a + b, b);
  }

  lemma TestIs(x: Expr, negated: bool, us: seq<Token>)
    requires Starts(us, BetweenTok) || Starts(us, LikeTok) || Starts(us, InTok)
    ensures ReadPostfix(x, Negation(negated) + us) == ReadTest(x, negated, us) && Marked(Negation(negated) + us)
    ensures |Negation(negated) + us| >= |us|
  {
    hide ReadPostfix, ReadTest, Negation;
    MarkedTest(negated, us);
    if negated { NegatedTest(x, us); } else { PlainTest(x, us); }
  }

  lemma MarkedTest(negated: bool, us: seq<Token>)
    requires Marked(us)
    ensures Marked(Negation(negated) + us) && |Negation(negated) + us| >= |us|
            && (!negated ==> Negation(negated) + us == us)
  {
  }

  lemma InParts(rule: Rule, x: Expr, values: seq<Expr>, negated: bool, rest: seq<Token>) returns (t: seq<Token>)
    requires Reads(rule, Print(InExpr(x, values, negated)) + rest, InExpr(x, values, negated), rest)
    requires K.Named(Print(InExpr(x, values, negated)) + rest)
    ensures K.Named(Print(x) + t) && Reads(AdditiveRule, Print(x) + t, x, t)
    ensures var us := PrintList(values) + ([RParen] + ([RParen] + rest));
            K.Named(us) && ReadList(us) == Got(values, [RParen] + ([RParen] + rest))
  {
    hide Reads, Print, PrintList, K.Named, ReadPostfix, ReadTest, ReadList, Negation;
    var tail := [RParen] + rest;
    var vs := PrintList(values) + ([RParen] + tail);
    var us := [InTok, LParen] + vs;
    t := Negation(negated) + us;
    InShape(x, values, negated, rest);
    TestIs(x, negated, us);
    TestParts(rule, InExpr(x, values, negated), x, t, rest);
    InMembers(x, values, negated, vs, tail);
    StillNamed(Print(x), t);
    StillNamed(Negation(negated), us);
    StillNamed([InTok, LParen], vs);
  }

  lemma Reattach(t: Token, ts: seq<Token>)
    ensures Starts(ts, t) ==> ts == [t] + ts[1..]
  {
  }

  lemma InMembers(x: Expr, values: seq<Expr>, negated: bool, vs: seq<Token>, tail: seq<Token>)
    requires ReadTest(x, negated, [InTok, LParen] + vs) == Got(InExpr(x, values, negated), tail)
    ensures ReadList(vs) == Got(values, [RParen] + tail)
  {
    hide ReadTest, ReadList;
    var us := [InTok, LParen] + vs;
    assert us[1..] == [LParen] + vs && us[2..] == vs;
    MembersAre(x, values, negated, us, tail);
  }

  lemma MembersAre(x: Expr, values: seq<Expr>, negated: bool, us: seq<Token>, tail: seq<Token>)
    requires Starts(us, InTok) && Starts(us[1..], LParen)
             && ReadTest(x, negated, us) == Got(InExpr(x, values, negated), tail)
    ensures ReadList(us[2..]) == Got(values, [RParen] + tail)
  {
    hide ReadList, ReadBetween, ReadPrimary;
    Reattach(RParen, ReadList(us[2..]).rest);
  }

  lemma BetweenParts(rule: Rule, x: Expr, low: Expr, high: Expr, negated: bool, rest: seq<Token>)
      returns (t: seq<Token>)
    requires Reads(rule, Print(BetweenExpr(x, low, high, negated)) + rest, BetweenExpr(x, low, high, negated), rest)
    requires K.Named(Print(BetweenExpr(x, low, high, negated)) + rest)
    ensures K.Named(Print(x) + t) && Reads(AdditiveRule, Print(x) + t, x, t)
    ensures var vs := [AndTok] + (Print(high) + ([RParen] + rest));
            K.Named(Print(low) + vs) && Reads(AdditiveRule, Print(low) + vs, low, vs)
    ensures var hs := Print(high) + ([RParen] + rest); K.Named(hs) && Reads(AdditiveRule, hs, high, [RParen] + rest)
  {
    hide Reads, Print, PrintList, K.Named, ReadPostfix, ReadTest, ReadBetween, Negation;
    var tail := [RParen] + rest;
    var vs := [AndTok] + (Print(high) + tail);
    var us := [BetweenTok] + (Print(low) + vs);
    t := Negation(negated) + us;
    BetweenShape(x, low, high, negated, rest);
    TestIs(x, negated, us);
    TestParts(rule, BetweenExpr(x, low, high, negated), x, t, rest);
    BetweenIs(x, negated, Print(low) + vs);
    StillNamed(Print(x), t);
    StillNamed(Negation(negated), us);
    StillNamed([BetweenTok], Print(low) + vs);
    StillNamed(Print(low), vs);
    StillNamed([AndTok], Print(high) + tail);
    BoundsParts(x, low, high, negated, tail);
  }

  lemma BoundsParts(x: Expr, low: Expr, high: Expr, negated: bool, tail: seq<Token>)
    requires var us := Print(low) + ([AndTok] + (Print(high) + tail));
             K.Named(us) && ReadBetween(x, negated, us) == Got(BetweenExpr(x, low, high, negated), tail)
    ensures var vs := [AndTok] + (Print(high) + tail); Reads(AdditiveRule, Print(low) + vs, low, vs)
    ensures Reads(AdditiveRule, Print(high) + tail, high, tail)
  {
    hide Print, K.Named, ReadAdditive, K.Kept;
    var vs := [AndTok] + (Print(high) + tail);
    var a := ReadAdditive(Print(low) + vs);
    K.AdditiveKept(Print(low) + vs);
    AdditivePast(Print(low) + vs);
    PlaceAfter(low, vs, a.rest);
    assert vs[1..] == Print(high) + tail;
  }

  lemma LikeParts(rule: Rule, x: Expr, pattern: Expr, negated: bool, rest: seq<Token>) returns (t: seq<Token>)
    requires Reads(rule, Print(LikeExpr(x, pattern, negated)) + rest, LikeExpr(x, pattern, negated), rest)
    requires K.Named(Print(LikeExpr(x, pattern, negated)) + rest)
    ensures K.Named(Print(x) + t) && Reads(AdditiveRule, Print(x) + t, x, t)
    ensures var us := Print(pattern) + ([RParen] + rest);
            K.Named(us) && Reads(PrimaryRule, us, pattern, [RParen] + rest)
  {
    hide Reads, ReadPrimary, Print, K.Named, ReadPostfix, ReadTest, Negation;
    var tail := [RParen] + rest;
    var us := [LikeTok] + (Print(pattern) + tail);
    t := Negation(negated) + us;
    LikeShape(x, pattern, negated, rest);
    TestIs(x, negated, us);
    TestParts(rule, LikeExpr(x, pattern, negated), x, t, rest);
    LikeIs(x, negated, Print(pattern) + tail);
    StillNamed(Print(x), t);
    StillNamed(Negation(negated), us);
    StillNamed([LikeTok], Print(pattern) + tail);
    PatternIs(Print(pattern) + tail, pattern, tail);
  }

  lemma PatternIs(ts: seq<Token>, e: Expr, rest: seq<Token>)
    ensures ReadPrimary(ts) == Got(e, rest) ==> Reads(PrimaryRule, ts, e, rest)
  {
    hide ReadPrimary;
  }

  // ----- argument lists

  /** An expression that is read off its own print, up to no parenthesis, takes all of the print. */
  lemma ExpressionEnds(x: Expr, t: seq<Token>)
    requires K.Named(Print(x) + t) && Clear(t)
    requires var r := ReadExpression(Print(x) + t); r.Got? && r.value == x && Clear(r.rest)
    ensures ReadExpression(Print(x) + t) == Got(x, t)
  {
    hide ReadExpression, Print, K.Named, K.Kept;
    var ts := Print(x) + t;
    K.ExpressionKept(ts);
    ExpressionPast(ts);
    PlaceAfter(x, t, ReadExpression(ts).rest);
  }

  lemma {:induction false} MoreExtends(done: seq<Expr>, ts: seq<Token>)
    ensures var r := ReadMore(done, ts);
            r.Got? ==> |done| <= |r.value| && r.value[..|done|] == done
                       && if Starts(ts, Comma) then |done| < |r.value| else r == Got(done, ts)
    decreases |ts|
  {
    hide ReadExpression;
    if Starts(ts, Comma) {
      var x := ReadExpression(ts[1..]);
      if x.Got? {
        MoreExtends(done + [x.value], x.rest);
        assert (done + [x.value])[..|done|] == done;
      }
    }
  }

  /** An item of a list was read off its own print. */
  lemma ItemEnds(done: seq<Expr>, y: Expr, more: seq<Expr>, rest: seq<Token>)
    requires K.Named(Print(y) + (PrintMore(more) + rest))
    requires var x := ReadExpression(Print(y) + (PrintMore(more) + rest));
             x.Got? && ReadMore(done + [x.value], x.rest) == Got(done + [y] + more, rest)
    ensures ReadExpression(Print(y) + (PrintMore(more) + rest)) == Got(y, PrintMore(more) + rest)
  {
    hide ReadExpression, ReadMore, Print, PrintMore, K.Named;
    var u := PrintMore(more) + rest;
    var x := ReadExpression(Print(y) + u);
    MoreExtends(done + [x.value], x.rest);
    assert (done + [x.value])[|done|] == x.value && (done + [y] + more)[|done|] == y;
    if more == [] {
      NothingPrinted(rest);
    } else {
      ListShape(more, rest);
      ExpressionEnds(y, u);
    }
  }

  lemma ListParts(es: seq<Expr>, rest: seq<Token>)
    requires K.Named(PrintList(es) + rest) && ReadList(PrintList(es) + rest) == Got(es, rest)
    ensures es != []
    ensures var u := PrintMore(es[1..]) + rest;
            K.Named(Print(es[0]) + u) && Reads(ExpressionRule, Print(es[0]) + u, es[0], u) && K.Named(u)
            && ReadMore([es[0]], u) == Got(es, rest)
  {
    hide ReadExpression, ReadMore, Print, PrintMore, PrintList, K.Named, K.Kept;
    K.ListKept(PrintList(es) + rest);
    ListShape(es, rest);
    var u := PrintMore(es[1..]) + rest;
    var x := ReadExpression(Print(es[0]) + u);
    assert [] + [x.value] == [x.value] && [] + [es[0]] + es[1..] == es;
    ItemEnds([], es[0], es[1..], rest);
    StillNamed(Print(es[0]), u);
  }

  lemma MoreParts(done: seq<Expr>, es: seq<Expr>, rest: seq<Token>)
    requires es != [] && K.Named(PrintMore(es) + rest)
    requires ReadMore(done, PrintMore(es) + rest) == Got(done + es, rest)
    ensures var u := PrintMore(es[1..]) + rest;
            K.Named(Print(es[0]) + u) && Reads(ExpressionRule, Print(es[0]) + u, es[0], u) && K.Named(u)
            && ReadMore(done + [es[0]], u) == Got(done + [es[0]] + es[1..], rest)
  {
    hide ReadExpression, Print, PrintMore, PrintList, K.Named;
    ListShape(es, rest);
    var u := PrintMore(es[1..]) + rest;
    assert ([Comma] + (Print(es[0]) + u))[1..] == Print(es[0]) + u;
    StillNamed([Comma], Print(es[0]) + u);
    StillNamed(Print(es[0]), u);
    assert done + [es[0]] + es[1..] == done + es;
    ItemEnds(done, es[0], es[1..], rest);
  }

  // ----- CASE

  lemma {:induction false} WhensExtend(done: seq<WhenClause>, ts: seq<Token>)
    ensures var r := ReadWhens(done, ts);
            r.Got? ==> |done| <= |r.value| && r.value[..|done|] == done
                       && if Starts(ts, WhenTok) then |done| < |r.value| else r == Got(done, ts)
    decreases |ts|
  {
    hide ReadWhen;
    if Starts(ts, WhenTok) {
      var w := ReadWhen(ts[1..]);
      if w.Got? {
        WhensExtend(done + [w.value], w.rest);
        assert (done + [w.value])[..|done|] == done;
      }
    }
  }

  lemma WhenWord(whens: seq<WhenClause>, t: seq<Token>)
    ensures Marked(t) ==> Marked(PrintWhens(whens) + t)
  {
    hide Print;
    NothingPrinted(t);
    if whens != [] {
      WhensShape(whens, t);
      WhenShape(whens[0], PrintWhens(whens[1..]) + t);
    }
  }

  /** A WHEN clause was read off its own print. */
  lemma WhenEnds(c: Expr, x: Expr, u: seq<Token>, us: seq<Token>)
    requires var ts := Print(c) + ([ThenTok] + (Print(x) + u));
             K.Named(ts) && ReadWhen(ts) == Got(WhenClause(c, x), us) && Marked(u) && Marked(us)
    ensures us == u
    ensures var ts := Print(c) + ([ThenTok] + (Print(x) + u)); Reads(ExpressionRule, ts, c, [ThenTok] + (Print(x) + u))
    ensures Reads(ExpressionRule, Print(x) + u, x, u) && K.Named(Print(x) + u)
  {
    hide ReadExpression, Print, K.Named;
    var t := [ThenTok] + (Print(x) + u);
    ExpressionEnds(c, t);
    assert t[1..] == Print(x) + u;
    StillNamed(Print(c), t);
    StillNamed([ThenTok], Print(x) + u);
    ExpressionEnds(x, u);
  }

  lemma WhenStep(done: seq<WhenClause>, us: seq<Token>)
    ensures var w := ReadWhen(us);
            ReadWhens(done, [WhenTok] + us) == if w.Fail? then Fail else ReadWhens(done + [w.value], w.rest)
  {
    hide ReadWhen;
    assert ([WhenTok] + us)[1..] == us;
  }

  lemma WhenFirst(whens: seq<WhenClause>, t: seq<Token>)
    requires whens != []
    ensures var w := whens[0];
            PrintWhens(whens) + t
            == [WhenTok] + (Print(w.cond) + ([ThenTok] + (Print(w.result) + (PrintWhens(whens[1..]) + t))))
  {
    hide Print, PrintWhens, PrintWhen;
    WhensShape(whens, t);
    WhenShape(whens[0], PrintWhens(whens[1..]) + t);
  }

  /** The clause that was read is the one that was printed. */
  lemma WhenFound(done: seq<WhenClause>, found: WhenClause, us: seq<Token>, whens: seq<WhenClause>, t: seq<Token>)
    requires whens != [] && ReadWhens(done + [found], us) == Got(done + whens, t) && Marked(t)
    ensures found == whens[0] && Marked(us) && done + [found] + whens[1..] == done + whens
  {
    hide ReadWhens;
    WhensExtend(done + [found], us);
    assert (done + [found])[|done|] == found && (done + whens)[|done|] == whens[0];
  }

  lemma WhensParts(done: seq<WhenClause>, whens: seq<WhenClause>, t: seq<Token>)
    requires whens != [] && K.Named(PrintWhens(whens) + t) && (Starts(t, ElseTok) || Starts(t, EndTok))
    requires ReadWhens(done, PrintWhens(whens) + t) == Got(done + whens, t)
    ensures var u, w := PrintWhens(whens[1..]) + t, whens[0];
            var us := [ThenTok] + (Print(w.result) + u);
            && K.Named(Print(w.cond) + us) && Reads(ExpressionRule, Print(w.cond) + us, w.cond, us)
            && K.Named(Print(w.result) + u) && Reads(ExpressionRule, Print(w.result) + u, w.result, u)
            && K.Named(u) && ReadWhens(done + [w], u) == Got(done + [w] + whens[1..], t)
  {
    hide ReadExpression, ReadWhen, ReadWhens, Print, PrintWhens, PrintWhen, K.Named, Reads;
    var u, w := PrintWhens(whens[1..]) + t, whens[0];
    var us := Print(w.cond) + ([ThenTok] + (Print(w.result) + u));
    WhenFirst(whens, t);
    WhenStep(done, us);
    StillNamed([WhenTok], us);
    var r := ReadWhen(us);
    WhenFound(done, r.value, r.rest, whens, t);
    WhenWord(whens[1..], t);
    WhenEnds(w.cond, w.result, u, r.rest);
    StillNamed(Print(w.result), u);
  }

  /** What follows the WHEN clauses of a printed CASE. */
  function Otherwise(otherwise: Option<Expr>, rest: seq<Token>): (t: seq<Token>)
    ensures Starts(t, ElseTok) || Starts(t, EndTok)
  {
    if otherwise.None? then [EndTok] + rest else [ElseTok] + (Print(otherwise.value) + ([EndTok] + rest))
  }

  lemma CaseParts(rule: Rule, whens: seq<WhenClause>, otherwise: Option<Expr>, rest: seq<Token>)
    requires Reads(rule, Print(CaseExpr(whens, otherwise)) + rest, CaseExpr(whens, otherwise), rest)
    requires K.Named(Print(CaseExpr(whens, otherwise)) + rest)
    ensures var t := Otherwise(otherwise, rest);
            K.Named(PrintWhens(whens) + t) && ReadWhens([], PrintWhens(whens) + t) == Got(whens, t)
    ensures otherwise.Some? ==> var us := Print(otherwise.value) + ([EndTok] + rest);
                                K.Named(us) && Reads(ExpressionRule, us, otherwise.value, [EndTok] + rest)
  {
    hide ReadExpression, ReadWhens, ReadElse, ReadPrimary, Print, PrintWhens, K.Named;
    var e, t := CaseExpr(whens, otherwise), Otherwise(otherwise, rest);
    var us := PrintWhens(whens) + t;
    CaseShape(whens, otherwise, rest);
    assert Print(e) + rest == [CaseTok] + us;
    Descend(rule, [CaseTok] + us, e, rest);
    StillNamed([CaseTok], us);
    StillNamed(PrintWhens(whens), t);
    CaseIs(us, e, rest);
    var w := ReadWhens([], us);
    WhensPast([], us);
    PastIsSuffix(us, w.rest);
    SuffixCat(PrintWhens(whens), t);
    ElseParts(us, w.value, w.rest, whens, otherwise, rest);
  }

  lemma CaseIs(us: seq<Token>, e: Expr, rest: seq<Token>)
    requires ReadPrimary([CaseTok] + us) == Got(e, rest)
    ensures var w := ReadWhens([], us); w.Got? && ReadElse(w.value, w.rest) == Got(e, rest)
  {
    hide ReadWhens, ReadElse, ReadPrimary;
    WordIs(CaseTok, us);
  }

  lemma ElseParts(us: seq<Token>, found: seq<WhenClause>, vs: seq<Token>, whens: seq<WhenClause>,
        otherwise: Option<Expr>, rest: seq<Token>)
    requires K.Named(us) && Suffix(us, vs) && Suffix(us, Otherwise(otherwise, rest))
    requires ReadElse(found, vs) == Got(CaseExpr(whens, otherwise), rest)
    ensures found == whens && vs == Otherwise(otherwise, rest)
    ensures otherwise.Some? ==> var ys := Print(otherwise.value) + ([EndTok] + rest);
                                K.Named(ys) && Reads(ExpressionRule, ys, otherwise.value, [EndTok] + rest)
  {
    hide ReadExpression, Print, K.Named, K.Kept;
    if otherwise.Some? {
      var t, ys := Otherwise(otherwise, rest), Print(otherwise.value) + ([EndTok] + rest);
      var x := ReadExpression(vs[1..]);
      assert x.rest == [EndTok] + rest && t[1..] == ys;
      K.ExpressionKept(vs[1..]);
      PlaceBefore(us, t, vs, otherwise.value, [EndTok] + rest);
      StripShrinks(us, t);
      StillNamed([ElseTok], ys);
    }
  }

  // ----- words with arguments

  lemma UnaryParts(rule: Rule, op: UnaryOp, x: Expr, rest: seq<Token>)
    requires Reads(rule, Print(UnaryExpr(op, x)) + rest, UnaryExpr(op, x), rest)
    ensures ReadExpression(Print(x) + ([RParen] + rest)) == Got(x, [RParen] + rest)
  {
    hide Reads, ReadExpression, Print, Plain, Past;
    var inner := Print(x) + ([RParen] + rest);
    UnaryShape(op, x, rest);
    Printed(x, [RParen] + rest);
    PlainIsPast(inner, [RParen] + rest);
    var under := OperandIs(rule, op, x, [LParen] + inner, rest);
    Grouped(under, inner, x, rest);
  }

  /** An operator in front is read by one rule, which reads the operand as well. */
  lemma OperandIs(rule: Rule, op: UnaryOp, x: Expr, us: seq<Token>, rest: seq<Token>) returns (under: Rule)
    requires Reads(rule, [UnaryToken(op)] + us, UnaryExpr(op, x), rest)
    ensures Reads(under, us, x, rest)
  {
    hide ReadExpression, ReadAnd, ReadNot, ReadComparison, ReadAdditive, ReadMultiplicative, ReadUnary, ReadPrimary;
    var ts := [UnaryToken(op)] + us;
    assert ts[1..] == us;
    if op.NotOp? {
      NotDescends(rule, ts, UnaryExpr(op, x), rest);
      NotIs(ts);
      under := NotRule;
    } else {
      Descend(rule, ts, UnaryExpr(op, x), rest);
      SignFails(ts);
      UnaryIs(ts);
      under := UnaryRule;
    }
  }

  lemma SignFails(ts: seq<Token>)
    requires Starts(ts, Minus) || Starts(ts, Plus)
    ensures ReadPrimary(ts) == Fail
  {
    hide ReadExpression, ReadName, ReadAggregate, ReadCase, ReadNullif, ReadCoalesce;
  }

  lemma NotDescends(rule: Rule, ts: seq<Token>, e: Expr, rest: seq<Token>)
    requires Reads(rule, ts, e, rest) && Starts(ts, NotTok) && !e.BinaryExpr?
    ensures ReadNot(ts) == Got(e, rest)
  {
    hide ReadExpression, ReadOr, ReadAnd, ReadNot, ReadComparison, ReadAdditive, ReadMultiplicative, ReadUnary,
         ReadPrimary;
    AllAdd(ts);
    NotIsNoOperand(ts);
  }

  lemma LiteralParts(rule: Rule, v: Literal, rest: seq<Token>)
    requires Reads(rule, Print(LiteralExpr(v)) + rest, LiteralExpr(v), rest)
    ensures Exact(v)
  {
    hide Reads, ReadPrimary, Print, Spelled, Nearest;
    var ts := Print(LiteralExpr(v)) + rest;
    Descend(rule, ts, LiteralExpr(v), rest);
    if Signed(v) {
      SignFirst(v);
      SignFails(ts);
      assert false;
    }
    ReadLiteral(v, rest);
    PrimaryIs(ts, LiteralExpr(ReadAs(v)), rest);
  }

  lemma AggregateParts(rule: Rule, kind: AggregateKind, arg: Option<Expr>, distinct: bool, star: bool,
        rest: seq<Token>)
    requires var e := AggregateExpr(kind, arg, distinct, star); Reads(rule, Print(e) + rest, e, rest)
    ensures if star then kind.COUNT? && arg.None? && !distinct else arg.Some?
    ensures !star ==> ReadExpression(Print(arg.value) + ([RParen] + rest)) == Got(arg.value, [RParen] + rest)
  {
    hide Reads, ReadExpression, ReadPrimary, Print;
    var e := AggregateExpr(kind, arg, distinct, star);
    Descend(rule, Print(e) + rest, e, rest);
    if star && kind.COUNT? {
      AggregateStarts(kind, arg, distinct, star, rest);
      ReadCountStar(rest);
      assert Print(e) + rest == [AggTok(COUNT), LParen, Star, RParen] + rest;
      PrimaryIs(Print(e) + rest, AggregateExpr(COUNT, None, false, true), rest);
    } else if star || arg.None? {
      AggregateStarts(kind, arg, distinct, star, rest);
      NoArgument(kind, distinct && !star, star, rest);
      assert false;
    } else {
      AggregateShape(kind, arg.value, distinct, rest);
      OpenedBy(arg.value);
      ArgumentIs(kind, arg.value, distinct, Print(arg.value) + ([RParen] + rest), rest);
    }
  }

  /** A word is read by the rule for it. */
  lemma WordIs(word: Token, ts: seq<Token>)
    ensures var r := ReadPrimary([word] + ts);
            && (word.AggTok? ==> r == ReadAggregate(word.kind, ts)) && (word.Ident? ==> r == ReadName(word.name, ts))
            && (word == NullifTok ==> r == ReadNullif(ts)) && (word == CoalesceTok ==> r == ReadCoalesce(ts))
            && (word == CaseTok ==> r == ReadCase(ts))
  {
    hide ReadExpression, ReadName, ReadAggregate, ReadCase, ReadNullif, ReadCoalesce;
    assert ([word] + ts)[1..] == ts;
  }

  lemma TwoWords(word: Token, ts: seq<Token>)
    ensures [word, LParen] + ts == [word] + ([LParen] + ts)
  {
  }

  lemma ArgumentIs(kind: AggregateKind, x: Expr, distinct: bool, us: seq<Token>, rest: seq<Token>)
    requires us != [] && us[0] != Star && us[0] != DistinctTok
    requires ReadPrimary([AggTok(kind), LParen] + (if distinct then [DistinctTok] else []) + us)
             == Got(AggregateExpr(kind, Some(x), distinct, false), rest)
    ensures ReadExpression(us) == Got(x, [RParen] + rest)
  {
    hide ReadExpression, ReadPrimary, ReadAggregate;
    var ds := if distinct then [DistinctTok] + us else us;
    assert [AggTok(kind), LParen] + (if distinct then [DistinctTok] else []) + us == [AggTok(kind), LParen] + ds;
    TwoWords(AggTok(kind), ds);
    WordIs(AggTok(kind), [LParen] + ds);
    if distinct { DistinctArgument(kind, x, us, rest); } else { PlainArgument(kind, x, us, rest); }
  }

  lemma DistinctArgument(kind: AggregateKind, x: Expr, us: seq<Token>, rest: seq<Token>)
    requires ReadAggregate(kind, [LParen] + ([DistinctTok] + us))
             == Got(AggregateExpr(kind, Some(x), true, false), rest)
    ensures ReadExpression(us) == Got(x, [RParen] + rest)
  {
    hide ReadExpression, ReadAggregate;
    var ts := [LParen] + ([DistinctTok] + us);
    assert ts[1..] == [DistinctTok] + us && ts[2..] == us;
    ArgumentOf(kind, x, true, ts, rest);
  }

  lemma PlainArgument(kind: AggregateKind, x: Expr, us: seq<Token>, rest: seq<Token>)
    requires us != [] && us[0] != Star && us[0] != DistinctTok
    requires ReadAggregate(kind, [LParen] + us) == Got(AggregateExpr(kind, Some(x), false, false), rest)
    ensures ReadExpression(us) == Got(x, [RParen] + rest)
  {
    hide ReadExpression, ReadAggregate;
    assert ([LParen] + us)[1..] == us;
    ArgumentOf(kind, x, false, [LParen] + us, rest);
  }

  lemma ArgumentOf(kind: AggregateKind, x: Expr, distinct: bool, ts: seq<Token>, rest: seq<Token>)
    requires ts != [] && !Starts(ts[1..], Star) && Starts(ts[1..], DistinctTok) == distinct
    requires ReadAggregate(kind, ts) == Got(AggregateExpr(kind, Some(x), distinct, false), rest)
    ensures ReadExpression(if distinct then ts[2..] else ts[1..]) == Got(x, [RParen] + rest)
  {
    hide ReadExpression;
    Reattach(RParen, ReadExpression(if distinct then ts[2..] else ts[1..]).rest);
  }

  lemma CoalesceParts(rule: Rule, args: seq<Expr>, rest: seq<Token>)
    requires Reads(rule, Print(CoalesceExpr(args)) + rest, CoalesceExpr(args), rest)
    ensures ReadList(PrintList(args) + ([RParen] + rest)) == Got(args, [RParen] + rest)
  {
    hide Reads, Print, PrintList, ReadPrimary, ReadList;
    CoalesceShape(args, rest);
    Descend(rule, Print(CoalesceExpr(args)) + rest, CoalesceExpr(args), rest);
    CoalesceIs(args, PrintList(args) + ([RParen] + rest), rest);
  }

  lemma CoalesceIs(args: seq<Expr>, us: seq<Token>, rest: seq<Token>)
    requires ReadPrimary([CoalesceTok, LParen] + us) == Got(CoalesceExpr(args), rest)
    ensures ReadList(us) == Got(args, [RParen] + rest)
  {
    hide ReadList, ReadExpression, ReadPrimary;
    TwoWords(CoalesceTok, us);
    WordIs(CoalesceTok, [LParen] + us);
    assert ([LParen] + us)[1..] == us;
  }

  lemma CallParts(rule: Rule, name: string, args: seq<Expr>, rest: seq<Token>)
    requires Reads(rule, Print(FunctionCallExpr(name, args)) + rest, FunctionCallExpr(name, args), rest) && args != []
    ensures ReadList(PrintList(args) + ([RParen] + rest)) == Got(args, [RParen] + rest)
  {
    hide Reads, Print, PrintList, ReadPrimary, ReadList;
    CallShape(name, args, rest);
    Descend(rule, Print(FunctionCallExpr(name, args)) + rest, FunctionCallExpr(name, args), rest);
    CallIs(name, args, PrintList(args) + ([RParen] + rest), rest);
  }

  lemma CallIs(name: string, args: seq<Expr>, us: seq<Token>, rest: seq<Token>)
    requires args != [] && ReadPrimary([Ident(name), LParen] + us) == Got(FunctionCallExpr(name, args), rest)
    ensures ReadList(us) == Got(args, [RParen] + rest)
  {
    hide ReadList, ReadExpression, ReadPrimary;
    TwoWords(Ident(name), us);
    WordIs(Ident(name), [LParen] + us);
    assert ([LParen] + us)[1..] == us;
  }

  lemma NullifParts(rule: Rule, a: Expr, b: Expr, rest: seq<Token>)
    requires Reads(rule, Print(NullifExpr(a, b)) + rest, NullifExpr(a, b), rest)
    requires K.Named(Print(NullifExpr(a, b)) + rest)
    ensures var us := [Comma] + (Print(b) + ([RParen] + rest));
            K.Named(Print(a) + us) && Reads(ExpressionRule, Print(a) + us, a, us)
    ensures var us := Print(b) + ([RParen] + rest); K.Named(us) && Reads(ExpressionRule, us, b, [RParen] + rest)
  {
    hide ReadExpression, ReadPrimary, Print, K.Named;
    var vs := Print(b) + ([RParen] + rest);
    var us := Print(a) + ([Comma] + vs);
    NullifShape(a, b, rest);
    Descend(rule, Print(NullifExpr(a, b)) + rest, NullifExpr(a, b), rest);
    StillNamed([NullifTok, LParen], us);
    StillNamed(Print(a), [Comma] + vs);
    StillNamed([Comma], vs);
    NullifIs(a, b, us, rest);
    assert ([Comma] + vs)[1..] == vs;
    ExpressionEnds(a, [Comma] + vs);
  }

  lemma NullifIs(a: Expr, b: Expr, us: seq<Token>, rest: seq<Token>)
    requires ReadPrimary([NullifTok, LParen] + us) == Got(NullifExpr(a, b), rest)
    ensures var x := ReadExpression(us);
            x.Got? && x.value == a && Starts(x.rest, Comma) && ReadExpression(x.rest[1..]) == Got(b, [RParen] + rest)
  {
    hide ReadExpression, ReadPrimary, ReadNullif;
    TwoWords(NullifTok, us);
    WordIs(NullifTok, [LParen] + us);
    NullifInside(a, b, us, rest);
  }

  lemma NullifInside(a: Expr, b: Expr, us: seq<Token>, rest: seq<Token>)
    requires ReadNullif([LParen] + us) == Got(NullifExpr(a, b), rest)
    ensures var x := ReadExpression(us);
            x.Got? && x.value == a && Starts(x.rest, Comma) && ReadExpression(x.rest[1..]) == Got(b, [RParen] + rest)
  {
    hide ReadExpression;
    assert ([LParen] + us)[1..] == us;
    var x := ReadExpression(us);
    if x.Got? && Starts(x.rest, Comma) {
      var y := ReadExpression(x.rest[1..]);
      if y.Got? { Reattach(RParen, y.rest); }
    }
  }

  // ----- every tree

  /** A tree that any rule reads back from its own print, whatever comes after it, is well formed. */
  lemma {:induction false} OnlyWF(rule: Rule, e: Expr, rest: seq<Token>)
    requires Reads(rule, Print(e) + rest, e, rest) && K.Named(Print(e) + rest)
    ensures WF(e)
    decreases e, 1
  {
    hide Reads, ReadList, ReadWhens, Print, PrintList, PrintWhens, K.Named, From, Otherwise, AllWF, WhensWF;
    var end := [RParen] + rest;
    match e {
      case LiteralExpr(v) => LiteralParts(rule, v, rest);
      case ColumnRef(_, _) =>
      case BinaryExpr(op, l, r) =>
        var inside := BinaryParts(rule, op, l, r, rest);
        OnlyWF(inside, l, From(op, r, end));
        OnlyWF(inside, r, end);
        if Low(inside) {
          OperandLevel(inside, l, From(op, r, end));
          OperandLevel(inside, r, end);
        }
      case UnaryExpr(op, x) =>
        UnaryParts(rule, op, x, rest);
        UnaryShape(op, x, rest);
        Inside([UnaryToken(op), LParen], x, end, Print(e) + rest);
        OnlyWF(ExpressionRule, x, end);
      case IsNullExpr(x, negated) =>
        var t := [IsTok] + Negation(negated) + [NullLit] + rest;
        NullTestParts(rule, x, negated, rest);
        OnlyWF(AdditiveRule, x, t);
        OperandLevel(AdditiveRule, x, t);
      case AggregateExpr(kind, arg, distinct, star) =>
        AggregateParts(rule, kind, arg, distinct, star, rest);
        if !star {
          AggregateShape(kind, arg.value, distinct, rest);
          Inside([AggTok(kind), LParen] + (if distinct then [DistinctTok] else []), arg.value, end, Print(e) + rest);
          OnlyWF(ExpressionRule, arg.value, end);
        }
      case CaseExpr(whens, otherwise) =>
        CaseParts(rule, whens, otherwise, rest);
        assert [] + whens == whens;
        WhensOnlyWF([], whens, Otherwise(otherwise, rest));
        if otherwise.Some? { OnlyWF(ExpressionRule, otherwise.value, [EndTok] + rest); }
      case InExpr(x, values, negated) =>
        var t := InParts(rule, x, values, negated, rest);
        OnlyWF(AdditiveRule, x, t);
        OperandLevel(AdditiveRule, x, t);
        ListOnlyWF(values, [RParen] + end);
      case BetweenExpr(x, low, high, negated) =>
        var t := BetweenParts(rule, x, low, high, negated, rest);
        OnlyWF(AdditiveRule, x, t);
        OperandLevel(AdditiveRule, x, t);
        OnlyWF(AdditiveRule, low, [AndTok] + (Print(high) + end));
        OperandLevel(AdditiveRule, low, [AndTok] + (Print(high) + end));
        OnlyWF(AdditiveRule, high, end);
        OperandLevel(AdditiveRule, high, end);
      case LikeExpr(x, pattern, negated) =>
        var t := LikeParts(rule, x, pattern, negated, rest);
        OnlyWF(AdditiveRule, x, t);
        OperandLevel(AdditiveRule, x, t);
        OnlyWF(PrimaryRule, pattern, end);
        OperandLevel(PrimaryRule, pattern, end);
      case CoalesceExpr(args) =>
        CoalesceParts(rule, args, rest);
        CoalesceShape(args, rest);
        StillNamed([CoalesceTok, LParen], PrintList(args) + end);
        ListOnlyWF(args, end);
      case NullifExpr(a, b) =>
        NullifParts(rule, a, b, rest);
        OnlyWF(ExpressionRule, a, [Comma] + (Print(b) + end));
        OnlyWF(ExpressionRule, b, end);
      case FunctionCallExpr(name, args) =>
        if args == [] {
          NoArguments();
        } else {
          CallParts(rule, name, args, rest);
          CallShape(name, args, rest);
          StillNamed([Ident(name), LParen], PrintList(args) + end);
          ListOnlyWF(args, end);
        }
    }
  }

  lemma NoArguments()
    ensures AllWF([]) && WhensWF([])
  {
  }

  lemma Inside(a: seq<Token>, x: Expr, end: seq<Token>, ts: seq<Token>)
    requires K.Named(ts) && ts == a + (Print(x) + end)
    ensures K.Named(Print(x) + end)
    ensures ReadExpression(Print(x) + end) == Got(x, end) ==> Reads(ExpressionRule, Print(x) + end, x, end)
  {
    hide Print, K.Named, ReadExpression;
    StillNamed(a, Print(x) + end);
  }

  lemma {:induction false} ListOnlyWF(es: seq<Expr>, rest: seq<Token>)
    requires K.Named(PrintList(es) + rest) && ReadList(PrintList(es) + rest) == Got(es, rest)
    ensures es != [] && AllWF(es)
    decreases es, 2
  {
    hide Reads, ReadList, ReadMore, Print, PrintMore, PrintList, K.Named, WF;
    ListParts(es, rest);
    OnlyWF(ExpressionRule, es[0], PrintMore(es[1..]) + rest);
    assert [es[0]] + es[1..] == es;
    MoreOnlyWF([es[0]], es[1..], rest);
  }

  lemma {:induction false} MoreOnlyWF(done: seq<Expr>, es: seq<Expr>, rest: seq<Token>)
    requires K.Named(PrintMore(es) + rest)
    requires ReadMore(done, PrintMore(es) + rest) == Got(done + es, rest)
    ensures AllWF(es)
    decreases es, 2
  {
    hide Reads, ReadMore, Print, PrintMore, K.Named, WF;
    if es != [] {
      MoreParts(done, es, rest);
      OnlyWF(ExpressionRule, es[0], PrintMore(es[1..]) + rest);
      MoreOnlyWF(done + [es[0]], es[1..], rest);
    }
  }

  lemma {:induction false} WhensOnlyWF(done: seq<WhenClause>, whens: seq<WhenClause>, t: seq<Token>)
    requires K.Named(PrintWhens(whens) + t) && (Starts(t, ElseTok) || Starts(t, EndTok))
    requires ReadWhens(done, PrintWhens(whens) + t) == Got(done + whens, t)
    ensures WhensWF(whens)
    decreases whens, 2
  {
    hide Reads, ReadWhens, Print, PrintWhens, K.Named, WF, WhenWF;
    if whens != [] {
      var u, w := PrintWhens(whens[1..]) + t, whens[0];
      WhensParts(done, whens, t);
      WhenOnlyWF(w, u);
      WhensOnlyWF(done + [w], whens[1..], t);
    }
  }

  lemma {:induction false} WhenOnlyWF(w: WhenClause, u: seq<Token>)
    requires var us := [ThenTok] + (Print(w.result) + u);
             K.Named(Print(w.cond) + us) && Reads(ExpressionRule, Print(w.cond) + us, w.cond, us)
    requires K.Named(Print(w.result) + u) && Reads(ExpressionRule, Print(w.result) + u, w.result, u)
    ensures WhenWF(w)
    decreases w, 2
  {
    hide Reads, Print, K.Named, WF;
    OnlyWF(ExpressionRule, w.cond, [ThenTok] + (Print(w.result) + u));
    OnlyWF(ExpressionRule, w.result, u);
  }

  /** The main statement: a tree is read back from what it prints exactly when it is well formed. What follows it ends
      the expression and may hold any tokens in which no empty identifier stands before a dot. */
  lemma BackIff(e: Expr, rest: seq<Token>)
    requires Ends(rest) && K.Named(rest)
    ensures Reads(ExpressionRule, Print(e) + rest, e, rest) <==> WF(e)
  {
    hide Reads, Print, WF, K.Named, Ends, Past;
    if WF(e) {
      Whole(e, rest);
    } else if Reads(ExpressionRule, Print(e) + rest, e, rest) {
      Printed(e, rest);
      NoDot(rest);
      OnlyWF(ExpressionRule, e, rest);
      assert false;
    }
  }

  lemma NoDot(rest: seq<Token>)
    requires Ends(rest)
    ensures !Starts(rest, Dot)
  {
  }

  /** So it is for the whole text of one expression. */
  lemma TreeBackIff(e: Expr)
    ensures ReadExpression(Print(e)) == Got(e, []) <==> WF(e)
  {
    hide Print, WF, ReadExpression;
    assert Print(e) + [] == Print(e);
    BackIff(e, []);
  }

  /** Of the literals, exactly those without a sign are read back, the floats when what is printed of them is nearest to
      them. */
  lemma LiteralBackIff(v: Literal, rest: seq<Token>)
    requires Ends(rest) && K.Named(rest)
    ensures Reads(ExpressionRule, Print(LiteralExpr(v)) + rest, LiteralExpr(v), rest) <==> Exact(v)
  {
    hide Reads, Print, Exact, Ends, K.Named;
    BackIff(LiteralExpr(v), rest);
  }
}
