/** The parser reads every spelling of a statement or a script as that statement or script: it accepts exactly the
    grammar, and which optional words are written makes no difference. */
module SqlStatementAcceptance {
  import opened Wrappers
  import opened SqlAst
  import opened SqlGrammar
  import opened SqlStatements
  import opened SqlSpelling
  import opened SqlAcceptance
  import opened SqlStatementSpelling
  import opened SqlRoundTrip
  import R = SqlStatementRoundTrip

  // ----- what follows

  /** The end of input or of the statement, or the first word of one. */
  predicate Stops(t: Token) {
    t == Eof || t == Semicolon || t == CreateTok || t == DropTok || t == SelectTok || t == InsertTok || t == UpdateTok
    || t == DeleteTok
  }

  /** What follows a clause: a later one of WHERE, GROUP BY, HAVING, ORDER BY, LIMIT and OFFSET, numbered from 1, or the
      end of the statement. */
  predicate Follows(k: nat, ts: seq<Token>) {
    var t := First(ts);
    || Stops(t) || (k <= 6 && t == OffsetTok) || (k <= 5 && t == LimitTok) || (k <= 4 && t == OrderTok)
    || (k <= 3 && t == HavingTok) || (k <= 2 && t == GroupTok) || (k <= 1 && t == WhereTok)
  }

  /** Nothing an expression, an alias or a direction could begin or go on with. */
  predicate Next(ts: seq<Token>) {
    Ends(ts) && First(ts) != AsTok && !First(ts).Ident? && First(ts) != AscTok && First(ts) != DescTok
  }

  predicate SeparatorWord(t: Token) {
    || Stops(t) || t == Comma || t == FromTok || t == OnTok || t == JoinTok || t == InnerTok || t == LeftTok
    || t == RightTok || t == CrossTok || t == OffsetTok || t == LimitTok || t == OrderTok || t == HavingTok
    || t == GroupTok || t == WhereTok
  }

  lemma WordNext(t: Token, ts: seq<Token>)
    requires SeparatorWord(t)
    ensures Next([t] + ts) && Ends([t] + ts) && First([t] + ts) == t && ([t] + ts)[1..] == ts
  {
    hide SeparatorWord, TestEnds, SumEnds, TermEnds, NameEnds;
    assert First([t] + ts) == t;
    WordEnds(t, [t] + ts);
    WordIsPlain(t);
  }

  lemma WordIsPlain(t: Token)
    requires SeparatorWord(t)
    ensures t != AsTok && !t.Ident? && t != AscTok && t != DescTok
  {
  }

  /** A token an expression does not go on with. */
  predicate Ending(t: Token) {
    match t
    case LParen => false case Dot => false
    case Star => false case Slash => false case Percent => false case Plus => false case Minus => false
    case Concat => false
    case EqTok => false case NeTok => false case LtTok => false case GtTok => false case LeTok => false
    case GeTok => false
    case IsTok => false case NotTok => false case BetweenTok => false case LikeTok => false case InTok => false
    case AndTok => false case OrTok => false
    case _ => true
  }

  lemma EndingEnds(ts: seq<Token>)
    requires ts == [] || Ending(ts[0])
    ensures Ends(ts)
  {
  }

  lemma WordIsEnding(t: Token)
    requires SeparatorWord(t) || t == AscTok || t == DescTok || t == AsTok || t.Ident?
    ensures Ending(t)
  {
  }

  lemma WordEnds(t: Token, ts: seq<Token>)
    requires First(ts) == t && (SeparatorWord(t) || t == AscTok || t == DescTok || t == AsTok || t.Ident?)
    ensures Ends(ts)
  {
    hide Ending, Ends, SeparatorWord;
    WordIsEnding(t);
    EndingEnds(ts);
  }

  lemma WordAhead(ts: seq<Token>)
    requires SeparatorWord(First(ts))
    ensures Next(ts) && Ends(ts)
  {
    hide SeparatorWord, TestEnds, SumEnds, TermEnds, NameEnds;
    WordEnds(First(ts), ts);
    WordIsPlain(First(ts));
  }

  lemma FollowsNext(k: nat, ts: seq<Token>)
    requires Follows(k, ts) && k >= 1
    ensures Next(ts) && Ends(ts) && !Starts(ts, Comma) && !StartsJoin(ts) && !Starts(ts, OnTok)
  {
    hide Next, Ends, StartsJoin;
    WordAhead(ts);
    FollowsIsPlain(First(ts), ts);
  }

  predicate ClauseWord(t: Token) {
    Stops(t) || t == OffsetTok || t == LimitTok || t == OrderTok || t == HavingTok || t == GroupTok || t == WhereTok
  }

  lemma FollowsIsPlain(t: Token, ts: seq<Token>)
    requires First(ts) == t && ClauseWord(t)
    ensures !Starts(ts, Comma) && !StartsJoin(ts) && !Starts(ts, OnTok)
  {
    if ts != [] { assert ts[0] == t; }
  }

  lemma FollowsIsNot(k: nat, ts: seq<Token>)
    requires Follows(k, ts)
    ensures k >= 2 ==> !Starts(ts, WhereTok)
    ensures k >= 3 ==> !Starts(ts, GroupTok)
    ensures k >= 4 ==> !Starts(ts, HavingTok)
    ensures k >= 5 ==> !Starts(ts, OrderTok)
    ensures k >= 6 ==> !Starts(ts, LimitTok)
    ensures k >= 7 ==> !Starts(ts, OffsetTok)
  {
  }

  lemma FollowsEarlier(k: nat, j: nat, ts: seq<Token>)
    requires Follows(k, ts) && j <= k
    ensures Follows(j, ts)
  {
  }

  lemma FollowsWord(k: nat, word: Token, ts: seq<Token>)
    requires (k == 1 && word == WhereTok) || (k == 2 && word == GroupTok) || (k == 3 && word == HavingTok)
             || (k == 4 && word == OrderTok) || (k == 5 && word == LimitTok)
    ensures Follows(k, [word] + ts)
  {
  }

  lemma Led(t: Token, ts: seq<Token>)
    ensures First([t] + ts) == t && ([t] + ts)[1..] == ts
  {
  }

  // ----- parts of a SELECT

  lemma AliasAccepted(alias: string, p: seq<Token>, rest: seq<Token>)
    requires AliasSpells(alias, p) && Next(rest)
    ensures ReadAlias(p + rest) == Got(alias, rest) && Ends(p + rest)
  {
    hide Ends;
    var ts := p + rest;
    if p == [AsTok, Ident(alias)] {
      assert First(ts) == AsTok && ts[1..] == [Ident(alias)] + rest && ts[2..] == rest;
      WordEnds(AsTok, ts);
    } else if p == [Ident(alias)] {
      assert First(ts) == Ident(alias) && ts[1..] == rest;
      WordEnds(Ident(alias), ts);
    } else {
      assert ts == rest;
    }
  }

  lemma TableAccepted(t: TableRef, p: seq<Token>, rest: seq<Token>)
    requires TableSpells(t, p) && Next(rest)
    ensures ReadTable(p + rest) == Got(t, rest)
  {
    hide AliasSpells, ReadAlias, Next;
    var q :| p == [Ident(t.name)] + q && AliasSpells(t.alias, q);
    AliasAccepted(t.alias, q, rest);
    Cat([Ident(t.name)], q, rest);
    Led(Ident(t.name), q + rest);
  }

  lemma ItemAccepted(i: SelectItem, p: seq<Token>, rest: seq<Token>)
    requires ItemSpells(i, p) && Next(rest)
    ensures ReadItem(p + rest) == Got(i, rest)
  {
    hide Spells, AliasSpells, ReadAlias, ReadExpression, Next, Ends;
    var a, b :| p == a + b && Spells(i.expr, 0, a) && AliasSpells(i.alias, b);
    AliasAccepted(i.alias, b, rest);
    WholeAccepted(i.expr, a, b + rest);
    Cat(a, b, rest);
  }

  lemma {:induction false} MoreItemsAccepted(done: seq<SelectItem>, xs: seq<SelectItem>, p: seq<Token>,
        rest: seq<Token>)
    requires Listed(ItemSpells, xs, p) && Next(rest) && !Starts(rest, Comma)
    ensures ReadMoreItems(done, [Comma] + (p + rest)) == Got(done + xs, rest)
    decreases |xs|
  {
    hide Listed, ItemSpells, ReadItem, ReadMoreItems, Next, Ends, SeparatorWord;
    var a, b := ListedParts(ItemSpells, xs, p);
    if |xs| == 1 {
      ItemAccepted(xs[0], p, rest);
      assert xs == [xs[0]];
      R.OneMoreItem(done, p + rest, xs[0], rest);
      R.NoMoreItems(done + xs, rest);
    } else {
      var us := [Comma] + (b + rest);
      CommaNext(b + rest);
      ItemAccepted(xs[0], a, us);
      MoreItemsAccepted(done + [xs[0]], xs[1..], b, rest);
      assert done + [xs[0]] + xs[1..] == done + xs;
      R.OneMoreItem(done, a + us, xs[0], us);
      Onward3(a, Comma, b, rest);
    }
  }

  lemma ItemsAccepted(xs: seq<SelectItem>, p: seq<Token>, rest: seq<Token>) returns (us: seq<Token>)
    requires Listed(ItemSpells, xs, p) && Next(rest) && !Starts(rest, Comma)
    ensures xs != [] && ReadItem(p + rest) == Got(xs[0], us) && ReadMoreItems([xs[0]], us) == Got(xs, rest)
  {
    hide Listed, ItemSpells, ReadItem, ReadMoreItems, Next, Ends, SeparatorWord;
    var a, b := ListedParts(ItemSpells, xs, p);
    assert [xs[0]] + xs[1..] == xs;
    us := rest;
    if |xs| == 1 {
      ItemAccepted(xs[0], p, rest);
      assert xs == [xs[0]];
      R.NoMoreItems(xs, rest);
    } else {
      us := [Comma] + (b + rest);
      CommaNext(b + rest);
      ItemAccepted(xs[0], a, us);
      MoreItemsAccepted([xs[0]], xs[1..], b, rest);
      Onward3(a, Comma, b, rest);
    }
  }

  lemma CommaNext(ts: seq<Token>)
    ensures Next([Comma] + ts)
  {
    hide Next;
    WordNext(Comma, ts);
  }

  lemma HeadAccepted(all: bool, items: seq<SelectItem>, p: seq<Token>, rest: seq<Token>)
    requires HeadSpells(all, items, p) && Next(rest) && !Starts(rest, Comma)
    ensures ReadHead(p + rest) == Got((all, items), rest) && !Starts(p + rest, DistinctTok)
  {
    hide Listed, ItemSpells, ReadItem, ReadMoreItems, Next;
    if all {
      Led(Star, rest);
    } else {
      var us := ItemsAccepted(items, p, rest);
      ItemsBegin(items, p);
    }
  }

  lemma ItemsBegin(items: seq<SelectItem>, p: seq<Token>)
    requires Listed(ItemSpells, items, p)
    ensures p != [] && p[0] != Star && p[0] != DistinctTok
  {
    hide Listed, ItemSpells;
    var a, b := ListedParts(ItemSpells, items, p);
    ItemBegins(items[0], a);
  }

  lemma ItemBegins(i: SelectItem, p: seq<Token>)
    requires ItemSpells(i, p)
    ensures p != [] && p[0] != Star && p[0] != DistinctTok
  {
    hide Spells, AliasSpells;
    var a, b :| p == a + b && Spells(i.expr, 0, a) && AliasSpells(i.alias, b);
    BeginsWith(i.expr, 0, a);
  }

  // ----- joins

  lemma {:induction false} CommaTablesAccepted(done: seq<JoinClause>, js: seq<JoinClause>, p: seq<Token>,
        rest: seq<Token>)
    requires Rows(CommaSpells, js, p) && Next(rest)
    ensures ReadCommaTables(done, p + rest) == ReadCommaTables(done + js, rest) && Next(p + rest)
    decreases |js|
  {
    hide Rows, TableSpells, ReadTable, Next, Ends;
    if js == [] {
      RowsNothing(CommaSpells, p);
      assert p + rest == rest && done + js == done;
    } else {
      var a, b := RowsParts(CommaSpells, js, p);
      CommaTablesAccepted(done + [js[0]], js[1..], b, rest);
      assert done + [js[0]] + js[1..] == done + js;
      var t :| a == [Comma] + t && TableSpells(js[0].table, t);
      TableAccepted(js[0].table, t, b + rest);
      WordNext(Comma, t + (b + rest));
      Cat(a, b, rest);
      Cat([Comma], t, b + rest);
      assert js[0] == JoinClause(CROSS, js[0].table, None);
    }
  }

  lemma JoinWordsAccepted(kind: JoinType, w: seq<Token>, us: seq<Token>)
    requires JoinWords(kind, w)
    ensures ReadJoinType(w + us) == Got(kind, [JoinTok] + us)
    ensures StartsJoin(w + us) && SeparatorWord(First(w + us))
  {
    var ts := w + us;
    if w == [JoinTok] {
      assert First(ts) == JoinTok && ts == [JoinTok] + us;
    } else {
      assert First(ts) == JoinWord(kind) && ts[1..] == [JoinTok] + us;
    }
  }

  lemma ConditionAccepted(j: JoinClause, c: seq<Token>, rest: seq<Token>)
    requires ConditionSpells(j, c) && Next(rest) && !Starts(rest, OnTok)
    ensures ReadCondition(j.kind, j.table, c + rest) == Got(j, rest) && Next(c + rest)
  {
    hide Spells, ReadExpression, Next, Ends;
    if j.kind.CROSS? {
      assert c + rest == rest;
    } else {
      var p :| c == [OnTok] + p && Spells(j.condition.value, 0, p);
      NextEnds(rest);
      WholeAccepted(j.condition.value, p, rest);
      Cat([OnTok], p, rest);
      WordNext(OnTok, p + rest);
    }
  }

  lemma NextEnds(ts: seq<Token>)
    requires Next(ts)
    ensures Ends(ts)
  {
    hide Ends;
  }

  lemma JoinAccepted(j: JoinClause, p: seq<Token>, rest: seq<Token>)
    requires JoinSpells(j, p) && Next(rest) && !Starts(rest, OnTok)
    ensures ReadJoin(p + rest) == Got(j, rest) && StartsJoin(p + rest) && SeparatorWord(First(p + rest))
  {
    hide JoinWords, TableSpells, ConditionSpells, ReadJoinType, ReadTable, ReadCondition, Next, StartsJoin,
         SeparatorWord;
    var w, t, c :| p == w + t + c && JoinWords(j.kind, w) && TableSpells(j.table, t) && ConditionSpells(j, c);
    ConditionAccepted(j, c, rest);
    TableAccepted(j.table, t, c + rest);
    JoinWordsAccepted(j.kind, w, t + (c + rest));
    Led(JoinTok, t + (c + rest));
    Cat(w + t, c, rest);
    Cat(w, t, c + rest);
  }

  lemma {:induction false} JoinsAccepted(done: seq<JoinClause>, js: seq<JoinClause>, p: seq<Token>, rest: seq<Token>)
    requires Rows(JoinSpells, js, p) && Next(rest) && !Starts(rest, OnTok) && !StartsJoin(rest)
             && !Starts(rest, Comma)
    ensures ReadJoins(done, p + rest) == Got(done + js, rest)
    ensures Next(p + rest) && !Starts(p + rest, OnTok) && !Starts(p + rest, Comma)
    decreases |js|
  {
    hide Rows, JoinSpells, ReadJoin, ReadJoins, StartsJoin, Next, Ends, SeparatorWord;
    if js == [] {
      RowsNothing(JoinSpells, p);
      assert p + rest == rest && done + js == done;
      R.NoJoin(done, rest);
    } else {
      var a, b := RowsParts(JoinSpells, js, p);
      JoinsAccepted(done + [js[0]], js[1..], b, rest);
      assert done + [js[0]] + js[1..] == done + js;
      JoinAccepted(js[0], a, b + rest);
      Cat(a, b, rest);
      R.OneJoin(done, a + (b + rest), js[0], b + rest);
      WordAhead(a + (b + rest));
      JoinIsNoComma(a + (b + rest));
    }
  }

  lemma JoinIsNoComma(ts: seq<Token>)
    requires StartsJoin(ts)
    ensures !Starts(ts, OnTok) && !Starts(ts, Comma)
  {
  }

  lemma AllJoinsAccepted(js: seq<JoinClause>, p: seq<Token>, rest: seq<Token>)
    requires JoinsSpell(js, p) && Follows(1, rest)
    ensures var c := ReadCommaTables([], p + rest); c.Got? && ReadJoins(c.value, c.rest) == Got(js, rest)
    ensures Next(p + rest)
  {
    hide Rows, CommaSpells, JoinSpells, ReadCommaTables, ReadJoins, Next, Ends, Follows, StartsJoin;
    var n, a, b :| 0 <= n <= |js| && p == a + b && Rows(CommaSpells, js[..n], a) && Rows(JoinSpells, js[n..], b);
    FollowsNext(1, rest);
    JoinsAccepted(js[..n], js[n..], b, rest);
    CommaTablesAccepted([], js[..n], a, b + rest);
    assert [] + js[..n] == js[..n] && js[..n] + js[n..] == js;
    R.NoCommaTable(js[..n], b + rest);
    Cat(a, b, rest);
  }

  // ----- clauses

  lemma OrderAccepted(i: OrderByItem, p: seq<Token>, rest: seq<Token>)
    requires OrderSpells(i, p) && Next(rest)
    ensures ReadOrderItem(p + rest) == Got(i, rest)
  {
    hide Spells, ReadExpression, Ends;
    if !i.descending && Spells(i.expr, 0, p) {
      WholeAccepted(i.expr, p, rest);
    } else {
      var word := if i.descending then DescTok else AscTok;
      var a :| p == a + [word] && Spells(i.expr, 0, a);
      Led(word, rest);
      WordEnds(word, [word] + rest);
      WholeAccepted(i.expr, a, [word] + rest);
      Cat(a, [word], rest);
    }
  }

  lemma {:induction false} MoreOrdersAccepted(done: seq<OrderByItem>, xs: seq<OrderByItem>, p: seq<Token>,
        rest: seq<Token>)
    requires Listed(OrderSpells, xs, p) && Next(rest) && !Starts(rest, Comma)
    ensures ReadMoreOrder(done, [Comma] + (p + rest)) == Got(done + xs, rest)
    decreases |xs|
  {
    hide Listed, OrderSpells, ReadOrderItem, ReadMoreOrder, Next, Ends, SeparatorWord;
    var a, b := ListedParts(OrderSpells, xs, p);
    if |xs| == 1 {
      OrderAccepted(xs[0], p, rest);
      assert xs == [xs[0]];
      R.OneMoreOrder(done, p + rest, xs[0], rest);
      R.NoMoreOrder(done + xs, rest);
    } else {
      var us := [Comma] + (b + rest);
      CommaNext(b + rest);
      OrderAccepted(xs[0], a, us);
      MoreOrdersAccepted(done + [xs[0]], xs[1..], b, rest);
      assert done + [xs[0]] + xs[1..] == done + xs;
      R.OneMoreOrder(done, a + us, xs[0], us);
      Onward3(a, Comma, b, rest);
    }
  }

  lemma OrdersAccepted(xs: seq<OrderByItem>, p: seq<Token>, rest: seq<Token>) returns (us: seq<Token>)
    requires Listed(OrderSpells, xs, p) && Next(rest) && !Starts(rest, Comma)
    ensures xs != [] && ReadOrderItem(p + rest) == Got(xs[0], us) && ReadMoreOrder([xs[0]], us) == Got(xs, rest)
  {
    hide Listed, OrderSpells, ReadOrderItem, ReadMoreOrder, Next, Ends, SeparatorWord;
    var a, b := ListedParts(OrderSpells, xs, p);
    assert [xs[0]] + xs[1..] == xs;
    us := rest;
    if |xs| == 1 {
      OrderAccepted(xs[0], p, rest);
      assert xs == [xs[0]];
      R.NoMoreOrder(xs, rest);
    } else {
      us := [Comma] + (b + rest);
      CommaNext(b + rest);
      OrderAccepted(xs[0], a, us);
      MoreOrdersAccepted([xs[0]], xs[1..], b, rest);
      Onward3(a, Comma, b, rest);
    }
  }

  lemma OrderByAccepted(items: seq<OrderByItem>, p: seq<Token>, rest: seq<Token>)
    requires OrderBySpells(items, p) && Follows(5, rest)
    ensures ReadOrderBy(p + rest) == Got(items, rest) && Follows(4, p + rest)
  {
    hide Listed, OrderSpells, ReadOrderItem, ReadMoreOrder, ReadOrderBy, Next, Ends, Follows, StartsJoin;
    FollowsNext(5, rest);
    if items == [] {
      FollowsIsNot(5, rest);
      FollowsEarlier(5, 4, rest);
      assert p + rest == rest;
      R.NoOrder(rest);
    } else {
      var a :| p == [OrderTok, ByTok] + a && Listed(OrderSpells, items, a);
      var us := OrdersAccepted(items, a, rest);
      R.ReadOrderedBy(items[0], a + rest, us, items, rest);
      Cat([OrderTok, ByTok], a, rest);
      FollowsTwo(4, OrderTok, ByTok, a + rest);
    }
  }

  lemma FollowsTwo(k: nat, word: Token, second: Token, ts: seq<Token>)
    requires (k == 2 && word == GroupTok) || (k == 4 && word == OrderTok) || (k == 5 && word == LimitTok)
    ensures Follows(k, [word, second] + ts)
  {
  }

  lemma ClauseAccepted(word: Token, k: nat, e: Option<Expr>, p: seq<Token>, rest: seq<Token>)
    requires ClauseSpells(word, e, p) && Follows(k + 1, rest)
    requires (k == 1 && word == WhereTok) || (k == 3 && word == HavingTok)
    ensures ReadClause(word, p + rest) == Got(e, rest) && Follows(k, p + rest)
  {
    hide Spells, ReadExpression, ReadClause, Reads, Next, Ends, Follows, StartsJoin;
    if e.None? {
      FollowsIsNot(k + 1, rest);
      FollowsEarlier(k + 1, k, rest);
      assert p + rest == rest;
      R.NoClause(word, rest);
    } else {
      var a :| p == [word] + a && Spells(e.value, 0, a);
      FollowsNext(k + 1, rest);
      WholeAccepted(e.value, a, rest);
      Cat([word], a, rest);
      R.ClauseRead(word, a + rest, e.value, rest);
      FollowsWord(k, word, a + rest);
    }
  }

  lemma GroupAccepted(es: seq<Expr>, p: seq<Token>, rest: seq<Token>)
    requires GroupSpells(es, p) && Follows(3, rest)
    ensures ReadGroup(p + rest) == Got(es, rest) && Follows(2, p + rest)
  {
    hide ListSpells, ReadList, ReadsList, ReadGroup, Next, Ends, Follows, StartsJoin;
    if es == [] {
      FollowsIsNot(3, rest);
      FollowsEarlier(3, 2, rest);
      assert p + rest == rest;
      R.NoGroup(rest);
    } else {
      var a :| p == [GroupTok, ByTok] + a && ListSpells(es, a);
      FollowsNext(3, rest);
      ListAccepted(es, a, rest);
      R.GroupRead(a + rest, es, rest);
      Cat([GroupTok, ByTok], a, rest);
      FollowsTwo(2, GroupTok, ByTok, a + rest);
    }
  }

  lemma LimitAccepted(limit: Option<int>, offset: Option<int>, p: seq<Token>, rest: seq<Token>)
    requires LimitSpells(limit, offset, p) && Follows(7, rest)
    ensures ReadLimit(p + rest) == Got((limit, offset), rest) && Follows(5, p + rest)
  {
    hide Follows, ReadLimit;
    FollowsIsNot(7, rest);
    if limit.None? {
      FollowsEarlier(7, 5, rest);
      assert p + rest == rest;
      R.NoLimit(rest);
    } else if offset.None? {
      R.LimitOnly(limit.value, rest);
      FollowsTwo(5, LimitTok, IntLit(limit.value), rest);
    } else {
      var us := [OffsetTok, IntLit(offset.value)] + rest;
      assert p + rest == [LimitTok, IntLit(limit.value)] + us;
      R.LimitAndOffset(limit.value, offset.value, rest);
      FollowsTwo(5, LimitTok, IntLit(limit.value), us);
    }
  }

  lemma TailAccepted(t: Tail, p: seq<Token>, rest: seq<Token>)
    requires TailSpells(t, p) && Follows(7, rest)
    ensures ReadTail(p + rest) == Got(t, rest) && Follows(1, p + rest)
  {
    hide ClauseSpells, GroupSpells, OrderBySpells, LimitSpells, ReadClause, ReadGroup, ReadOrderBy, ReadLimit,
         Follows;
    var w, g, h, o, l :| p == w + (g + (h + (o + l)))
        && ClauseSpells(WhereTok, t.filter, w) && GroupSpells(t.groupBy, g) && ClauseSpells(HavingTok, t.having, h)
        && OrderBySpells(t.orderBy, o) && LimitSpells(t.limit, t.offset, l);
    LimitAccepted(t.limit, t.offset, l, rest);
    OrderByAccepted(t.orderBy, o, l + rest);
    ClauseAccepted(HavingTok, 3, t.having, h, o + (l + rest));
    GroupAccepted(t.groupBy, g, h + (o + (l + rest)));
    ClauseAccepted(WhereTok, 1, t.filter, w, g + (h + (o + (l + rest))));
    FiveParts(w, g, h, o, l, rest);
  }

  // ----- statements

  lemma SelectRead(distinct: bool, all: bool, items: seq<SelectItem>, from: TableRef, joins: seq<JoinClause>,
        tail: Tail, hs: seq<Token>, fs: seq<Token>, js: seq<Token>, ts: seq<Token>, rest: seq<Token>)
    requires ReadHead(hs) == Got((all, items), [FromTok] + fs) && !Starts(hs, DistinctTok)
    requires ReadTable(fs) == Got(from, js) && ReadTail(ts) == Got(tail, rest)
    requires var c := ReadCommaTables([], js); c.Got? && ReadJoins(c.value, c.rest) == Got(joins, ts)
    ensures ReadSelect(Distinct(distinct) + hs) == Got(SelectStmt(distinct, all, items, from, joins, tail), rest)
  {
    hide ReadHead, ReadTable, ReadCommaTables, ReadJoins, ReadTail;
    Led(FromTok, fs);
    if distinct {
      Led(DistinctTok, hs);
    } else {
      assert [] + hs == hs;
    }
  }

  lemma SelectCut(d: seq<Token>, h: seq<Token>, f: seq<Token>, j: seq<Token>, t: seq<Token>, rest: seq<Token>)
    ensures ([SelectTok] + (d + (h + ([FromTok] + (f + (j + t)))))) + rest
            == [SelectTok] + (d + (h + ([FromTok] + (f + (j + (t + rest))))))
  {
    FiveParts(h, [FromTok], f, j, t, rest);
    Cat(d, h + ([FromTok] + (f + (j + t))), rest);
    Cat([SelectTok], d + (h + ([FromTok] + (f + (j + t)))), rest);
  }

  lemma SelectAccepted(s: Stmt, p: seq<Token>, rest: seq<Token>)
    requires s.SelectStmt? && StmtSpells(s, p) && Follows(7, rest)
    ensures ReadStmt(p + rest) == Got(s, rest)
  {
    hide HeadSpells, TableSpells, JoinsSpell, TailSpells, Distinct, ReadHead, ReadTable, ReadCommaTables, ReadJoins,
         ReadTail, ReadSelect, ReadStmt, Next, Ends, Follows, SeparatorWord;
    var h, f, j, t :| p == [SelectTok] + (Distinct(s.distinct) + (h + ([FromTok] + (f + (j + t)))))
        && HeadSpells(s.all, s.items, h) && TableSpells(s.from, f) && JoinsSpell(s.joins, j) && TailSpells(s.tail, t);
    var fs := f + (j + (t + rest));
    TailAccepted(s.tail, t, rest);
    AllJoinsAccepted(s.joins, j, t + rest);
    TableAccepted(s.from, f, j + (t + rest));
    FromNext(fs);
    HeadAccepted(s.all, s.items, h, [FromTok] + fs);
    SelectRead(s.distinct, s.all, s.items, s.from, s.joins, s.tail, h + ([FromTok] + fs), fs, j + (t + rest),
               t + rest, rest);
    R.Dispatch(SelectTok, Distinct(s.distinct) + (h + ([FromTok] + fs)), s, rest);
    SelectCut(Distinct(s.distinct), h, f, j, t, rest);
  }

  lemma FromNext(ts: seq<Token>)
    ensures Next([FromTok] + ts) && !Starts([FromTok] + ts, Comma)
  {
    hide Next, Ends;
    WordNext(FromTok, ts);
  }

  lemma {:induction false} NamesAccepted(done: seq<string>, names: seq<string>, p: seq<Token>, rest: seq<Token>)
    requires Listed(NameSpells, names, p) && Starts(rest, RParen)
    ensures ReadNames(done, p + rest) == Got(done + names, rest)
    decreases |names|
  {
    hide Listed, ReadNames;
    var a, b := ListedParts(NameSpells, names, p);
    if |names| == 1 {
      R.LastName(done, names[0], rest);
      assert done + names == done + [names[0]];
    } else {
      NamesAccepted(done + [names[0]], names[1..], b, rest);
      R.NextName(done, names[0], b + rest);
      assert done + names == (done + [names[0]]) + names[1..];
      Onward3(a, Comma, b, rest);
      assert a + ([Comma] + (b + rest)) == [Ident(names[0]), Comma] + (b + rest);
    }
  }

  lemma ColumnsAccepted(names: seq<string>, p: seq<Token>, rest: seq<Token>)
    requires ColumnsSpell(names, p) && !Starts(rest, LParen)
    ensures ReadColumns(p + rest) == Got(names, rest)
  {
    hide Listed, ReadNames, InParens;
    if names == [] {
      assert p + rest == rest;
    } else {
      var a :| p == InParens(a) && Listed(NameSpells, names, a);
      Led(RParen, rest);
      NamesAccepted([], names, a, [RParen] + rest);
      assert [] + names == names;
      ParensCut(a, rest);
      Led(LParen, a + ([RParen] + rest));
    }
  }

  lemma InsertCut(table: string, c: seq<Token>, v: seq<Token>, rest: seq<Token>)
    ensures ([InsertTok, IntoTok, Ident(table)] + (c + ([ValuesTok] + InParens(v)))) + rest
            == [InsertTok] + ([IntoTok, Ident(table)] + (c + ([ValuesTok, LParen] + (v + ([RParen] + rest)))))
  {
    hide InParens;
    ParensCut(v, rest);
    var us := [ValuesTok] + InParens(v);
    Cat([ValuesTok], InParens(v), rest);
    assert [ValuesTok] + ([LParen] + (v + ([RParen] + rest))) == [ValuesTok, LParen] + (v + ([RParen] + rest));
    Cat(c, us, rest);
    assert ([InsertTok, IntoTok, Ident(table)] + (c + us)) + rest
        == [InsertTok] + ([IntoTok, Ident(table)] + ((c + us) + rest));
  }

  lemma InsertParts(s: Stmt, p: seq<Token>) returns (c: seq<Token>, v: seq<Token>)
    requires s.InsertStmt? && StmtSpells(s, p)
    ensures p == [InsertTok, IntoTok, Ident(s.table)] + (c + ([ValuesTok] + InParens(v)))
    ensures ColumnsSpell(s.columns, c) && ListSpells(s.values, v)
  {
    hide ColumnsSpell, ListSpells, InParens;
    c, v :| p == [InsertTok, IntoTok, Ident(s.table)] + (c + ([ValuesTok] + InParens(v)))
        && ColumnsSpell(s.columns, c) && ListSpells(s.values, v);
  }

  lemma InsertAccepted(s: Stmt, p: seq<Token>, rest: seq<Token>)
    requires s.InsertStmt? && StmtSpells(s, p)
    ensures ReadStmt(p + rest) == Got(s, rest)
  {
    hide ColumnsSpell, ListSpells, InParens, ReadColumns, ReadList, ReadsList, ReadStmt, ReadInsert, StmtSpells, Ends;
    var c, v := InsertParts(s, p);
    var vs := v + ([RParen] + rest);
    Closing(RParen, rest);
    R.NotComma(RParen, rest);
    ListAccepted(s.values, v, [RParen] + rest);
    R.ReadsAsList(vs, s.values, [RParen] + rest);
    R.ValuesIsNoParen(vs);
    ColumnsAccepted(s.columns, c, [ValuesTok, LParen] + vs);
    R.InsertRead(s.table, c + ([ValuesTok, LParen] + vs), s.columns, vs, s.values, rest);
    R.Dispatch(InsertTok, [IntoTok, Ident(s.table)] + (c + ([ValuesTok, LParen] + vs)), s, rest);
    InsertCut(s.table, c, v, rest);
  }

  lemma AssignmentAccepted(a: (string, Expr), p: seq<Token>, rest: seq<Token>)
    requires AssignmentSpells(a, p) && Next(rest)
    ensures ReadAssignment(p + rest) == Got(a, rest)
  {
    hide Spells, ReadExpression, Next, Ends;
    var q :| p == [Ident(a.0), EqTok] + q && Spells(a.1, 0, q);
    NextEnds(rest);
    WholeAccepted(a.1, q, rest);
    Cat([Ident(a.0), EqTok], q, rest);
    R.FollowTwo(Ident(a.0), EqTok, q + rest);
  }

  lemma {:induction false} MoreAssignmentsAccepted(done: seq<(string, Expr)>, xs: seq<(string, Expr)>, p: seq<Token>,
        rest: seq<Token>)
    requires Listed(AssignmentSpells, xs, p) && Next(rest) && !Starts(rest, Comma)
    ensures ReadMoreAssignments(done, [Comma] + (p + rest)) == Got(done + xs, rest)
    decreases |xs|
  {
    hide Listed, AssignmentSpells, ReadAssignment, ReadMoreAssignments, Next, Ends, SeparatorWord;
    var a, b := ListedParts(AssignmentSpells, xs, p);
    if |xs| == 1 {
      AssignmentAccepted(xs[0], p, rest);
      assert xs == [xs[0]];
      R.OneMoreAssignment(done, p + rest, xs[0], rest);
      R.NoMoreAssignments(done + xs, rest);
    } else {
      var us := [Comma] + (b + rest);
      CommaNext(b + rest);
      AssignmentAccepted(xs[0], a, us);
      MoreAssignmentsAccepted(done + [xs[0]], xs[1..], b, rest);
      assert done + [xs[0]] + xs[1..] == done + xs;
      R.OneMoreAssignment(done, a + us, xs[0], us);
      Onward3(a, Comma, b, rest);
    }
  }

  lemma AssignmentsAccepted(xs: seq<(string, Expr)>, p: seq<Token>, rest: seq<Token>) returns (us: seq<Token>)
    requires Listed(AssignmentSpells, xs, p) && Next(rest) && !Starts(rest, Comma)
    ensures xs != [] && ReadAssignment(p + rest) == Got(xs[0], us) && ReadMoreAssignments([xs[0]], us) == Got(xs, rest)
  {
    hide Listed, AssignmentSpells, ReadAssignment, ReadMoreAssignments, Next, Ends, SeparatorWord;
    var a, b := ListedParts(AssignmentSpells, xs, p);
    assert [xs[0]] + xs[1..] == xs;
    us := rest;
    if |xs| == 1 {
      AssignmentAccepted(xs[0], p, rest);
      assert xs == [xs[0]];
      R.NoMoreAssignments(xs, rest);
    } else {
      us := [Comma] + (b + rest);
      CommaNext(b + rest);
      AssignmentAccepted(xs[0], a, us);
      MoreAssignmentsAccepted([xs[0]], xs[1..], b, rest);
      Onward3(a, Comma, b, rest);
    }
  }

  lemma UpdateParts(s: Stmt, p: seq<Token>) returns (a: seq<Token>, w: seq<Token>)
    requires s.UpdateStmt? && StmtSpells(s, p)
    ensures p == [UpdateTok, Ident(s.table), SetTok] + (a + w)
    ensures Listed(AssignmentSpells, s.assignments, a) && ClauseSpells(WhereTok, s.filter, w)
  {
    hide Listed, AssignmentSpells, ClauseSpells;
    a, w :| p == [UpdateTok, Ident(s.table), SetTok] + (a + w)
        && Listed(AssignmentSpells, s.assignments, a) && ClauseSpells(WhereTok, s.filter, w);
  }

  lemma UpdateCut(t: Token, a: seq<Token>, w: seq<Token>, rest: seq<Token>)
    ensures ([UpdateTok, t, SetTok] + (a + w)) + rest == [UpdateTok] + ([t, SetTok] + (a + (w + rest)))
  {
    Cat(a, w, rest);
    assert ([UpdateTok, t, SetTok] + (a + w)) + rest == [UpdateTok] + ([t, SetTok] + ((a + w) + rest));
  }

  lemma UpdateAccepted(s: Stmt, p: seq<Token>, rest: seq<Token>)
    requires s.UpdateStmt? && StmtSpells(s, p) && Follows(7, rest)
    ensures ReadStmt(p + rest) == Got(s, rest)
  {
    hide Listed, AssignmentSpells, ClauseSpells, ReadAssignment, ReadMoreAssignments, ReadClause, ReadUpdate, ReadStmt,
         StmtSpells, Next, Ends, Follows, StartsJoin;
    var a, w := UpdateParts(s, p);
    FollowsEarlier(7, 2, rest);
    ClauseAccepted(WhereTok, 1, s.filter, w, rest);
    FollowsNext(1, w + rest);
    var us := AssignmentsAccepted(s.assignments, a, w + rest);
    R.UpdateRead(s.table, a + (w + rest), s.assignments, us, w + rest, s.filter, rest);
    R.Dispatch(UpdateTok, [Ident(s.table), SetTok] + (a + (w + rest)), s, rest);
    UpdateCut(Ident(s.table), a, w, rest);
  }

  lemma DeleteParts(s: Stmt, p: seq<Token>) returns (w: seq<Token>)
    requires s.DeleteStmt? && StmtSpells(s, p)
    ensures p == [DeleteTok, FromTok, Ident(s.table)] + w && ClauseSpells(WhereTok, s.filter, w)
  {
    hide ClauseSpells;
    w :| p == [DeleteTok, FromTok, Ident(s.table)] + w && ClauseSpells(WhereTok, s.filter, w);
  }

  lemma ThreeCut(a: Token, b: Token, c: Token, p: seq<Token>, rest: seq<Token>)
    ensures ([a, b, c] + p) + rest == [a] + ([b, c] + (p + rest))
  {
  }

  lemma DeleteAccepted(s: Stmt, p: seq<Token>, rest: seq<Token>)
    requires s.DeleteStmt? && StmtSpells(s, p) && Follows(7, rest)
    ensures ReadStmt(p + rest) == Got(s, rest)
  {
    hide ClauseSpells, ReadClause, ReadDelete, ReadStmt, StmtSpells, Follows;
    var w := DeleteParts(s, p);
    FollowsEarlier(7, 2, rest);
    ClauseAccepted(WhereTok, 1, s.filter, w, rest);
    R.DeleteRead(s.table, w + rest, s.filter, rest);
    R.Dispatch(DeleteTok, [FromTok, Ident(s.table)] + (w + rest), s, rest);
    ThreeCut(DeleteTok, FromTok, Ident(s.table), w, rest);
  }

  lemma TypeAccepted(base: TypeName, length: Option<nat>, p: seq<Token>, rest: seq<Token>)
    requires TypeSpells(base, length, p) && !Starts(rest, LParen)
    ensures ReadType(p + rest) == Got((base, length), rest)
  {
    hide ReadType;
    var size := if length.Some? then [LParen, IntLit(length.value), RParen] else [];
    if p == [TypeTok(base), LParen, IntLit(if length.Some? then length.value else 0), RParen] {
      assert p + rest == [TypeTok(base)] + (size + rest);
      R.TypeBack(base, length, rest);
    } else if base.VARCHAR? {
      NoLength(rest);
    } else {
      assert p + rest == [TypeTok(base)] + (size + rest);
      R.TypeBack(base, length, rest);
    }
  }

  lemma NoLength(rest: seq<Token>)
    requires !Starts(rest, LParen)
    ensures ReadType([TypeTok(VARCHAR)] + rest) == Got((VARCHAR, Some(0)), rest)
  {
    Led(TypeTok(VARCHAR), rest);
  }

  lemma DefAccepted(d: ColumnDef, p: seq<Token>, rest: seq<Token>)
    requires DefSpells(d, p) && (Starts(rest, Comma) || Starts(rest, RParen))
    ensures ReadDef(p + rest) == Got(d, rest) && First(p + rest).Ident?
  {
    hide TypeSpells, ReadType, ReadDef;
    var n := R.Nullness(d);
    var t :| p == [Ident(d.name)] + t + n && TypeSpells(d.base, d.length, t);
    NullnessIsNoParen(d, rest);
    TypeAccepted(d.base, d.length, t, n + rest);
    R.DefRead(d, t + (n + rest), rest);
    assert p + rest == [Ident(d.name)] + (t + (n + rest));
  }

  lemma NullnessIsNoParen(d: ColumnDef, rest: seq<Token>)
    requires !Starts(rest, LParen)
    ensures !Starts(R.Nullness(d) + rest, LParen)
  {
  }

  /** The definitions, and the comma after them if there is one. */
  lemma {:induction false} DefListAccepted(done: seq<ColumnDef>, ds: seq<ColumnDef>, p: seq<Token>, comma: bool,
        rest: seq<Token>)
    requires Listed(DefSpells, ds, p) && Starts(rest, RParen)
    ensures ReadDefs(done, p + ((if comma then [Comma] else []) + rest)) == Got(done + ds, rest)
    decreases |ds|
  {
    hide Listed, DefSpells, ReadDef, ReadDefs;
    var tail := (if comma then [Comma] else []) + rest;
    var a, b := ListedParts(DefSpells, ds, p);
    if |ds| == 1 {
      assert done + ds == done + [ds[0]];
      if comma {
        Led(Comma, rest);
        DefAccepted(ds[0], p, tail);
        R.NextDef(done, ds[0], p + tail, rest);
        DefsEnd(done + [ds[0]], rest);
      } else {
        assert tail == rest;
        DefAccepted(ds[0], p, rest);
        R.LastDef(done, ds[0], p + rest, rest);
      }
    } else {
      DefListAccepted(done + [ds[0]], ds[1..], b, comma, rest);
      assert done + ds == (done + [ds[0]]) + ds[1..];
      Led(Comma, b + tail);
      DefAccepted(ds[0], a, [Comma] + (b + tail));
      R.NextDef(done, ds[0], a + ([Comma] + (b + tail)), b + tail);
      Onward3(a, Comma, b, tail);
    }
  }

  lemma DefsEnd(ds: seq<ColumnDef>, rest: seq<Token>)
    requires Starts(rest, RParen)
    ensures ReadDefs(ds, rest) == Got(ds, rest)
  {
  }

  lemma DefsAccepted(ds: seq<ColumnDef>, p: seq<Token>, rest: seq<Token>)
    requires DefsSpell(ds, p) && Starts(rest, RParen)
    ensures ReadDefs([], p + rest) == Got(ds, rest)
  {
    hide Listed, DefSpells, ReadDefs;
    assert [] + ds == ds;
    if ds == [] {
      assert p + rest == rest;
      DefsEnd([], rest);
    } else if Listed(DefSpells, ds, p) {
      DefListAccepted([], ds, p, false, rest);
      assert [] + rest == rest;
    } else {
      var a :| p == a + [Comma] && Listed(DefSpells, ds, a);
      DefListAccepted([], ds, a, true, rest);
      Cat(a, [Comma], rest);
    }
  }

  lemma CreateParts(s: Stmt, p: seq<Token>) returns (a: seq<Token>)
    requires s.CreateTableStmt? && StmtSpells(s, p)
    ensures p == [CreateTok, TableTok, Ident(s.table)] + InParens(a) && DefsSpell(s.defs, a)
  {
    hide DefsSpell, InParens;
    a :| p == [CreateTok, TableTok, Ident(s.table)] + InParens(a) && DefsSpell(s.defs, a);
  }

  lemma CreateCut(t: Token, a: seq<Token>, rest: seq<Token>)
    ensures ([CreateTok, TableTok, t] + InParens(a)) + rest
            == [CreateTok] + ([TableTok, t, LParen] + (a + ([RParen] + rest)))
  {
    hide InParens;
    ParensCut(a, rest);
    ThreeCut(CreateTok, TableTok, t, InParens(a), rest);
    assert [TableTok, t] + ([LParen] + (a + ([RParen] + rest))) == [TableTok, t, LParen] + (a + ([RParen] + rest));
  }

  lemma CreateAccepted(s: Stmt, p: seq<Token>, rest: seq<Token>)
    requires s.CreateTableStmt? && StmtSpells(s, p)
    ensures ReadStmt(p + rest) == Got(s, rest)
  {
    hide DefsSpell, InParens, ReadDefs, ReadCreate, ReadStmt, StmtSpells;
    var a := CreateParts(s, p);
    Led(RParen, rest);
    DefsAccepted(s.defs, a, [RParen] + rest);
    R.CreateRead(s.table, a + ([RParen] + rest), s.defs, rest);
    R.Dispatch(CreateTok, [TableTok, Ident(s.table), LParen] + (a + ([RParen] + rest)), s, rest);
    CreateCut(Ident(s.table), a, rest);
  }

  lemma DropAccepted(s: Stmt, p: seq<Token>, rest: seq<Token>)
    requires s.DropTableStmt? && StmtSpells(s, p)
    ensures ReadStmt(p + rest) == Got(s, rest)
  {
    hide ReadDrop, ReadStmt;
    if s.ifExists {
      R.DropRead(s.table, rest);
      R.Dispatch(DropTok, [TableTok, IfTok, ExistsTok, Ident(s.table)] + rest, s, rest);
      assert p + rest == [DropTok] + ([TableTok, IfTok, ExistsTok, Ident(s.table)] + rest);
    } else {
      R.PlainDropRead(s.table, rest);
      R.Dispatch(DropTok, [TableTok, Ident(s.table)] + rest, s, rest);
      assert p + rest == [DropTok] + ([TableTok, Ident(s.table)] + rest);
    }
  }

  lemma StmtAccepted(s: Stmt, p: seq<Token>, rest: seq<Token>)
    requires StmtSpells(s, p) && Follows(7, rest)
    ensures ReadStmt(p + rest) == Got(s, rest)
  {
    hide StmtSpells, ReadStmt, Follows;
    match s
    case SelectStmt(_, _, _, _, _, _) => SelectAccepted(s, p, rest);
    case InsertStmt(_, _, _) => InsertAccepted(s, p, rest);
    case UpdateStmt(_, _, _) => UpdateAccepted(s, p, rest);
    case DeleteStmt(_, _) => DeleteAccepted(s, p, rest);
    case CreateTableStmt(_, _) => CreateAccepted(s, p, rest);
    case DropTableStmt(_, _) => DropAccepted(s, p, rest);
  }

  lemma StmtBegins(s: Stmt, p: seq<Token>)
    requires StmtSpells(s, p)
    ensures p != [] && Stops(p[0]) && p[0] != Semicolon && p[0] != Eof
  {
    hide HeadSpells, TableSpells, JoinsSpell, TailSpells, ColumnsSpell, ListSpells, Listed, ClauseSpells, DefsSpell;
  }

  lemma ScriptParts(ss: seq<Stmt>, ts: seq<Token>) returns (p: seq<Token>, c: seq<Token>, q: seq<Token>)
    requires ScriptSpells(ss, ts) && ss != []
    ensures ts == p + c + q && StmtSpells(ss[0], p) && (c == [] || c == [Semicolon]) && ScriptSpells(ss[1..], q)
  {
    hide StmtSpells;
    p, c, q :| ts == p + c + q && StmtSpells(ss[0], p) && (c == [] || c == [Semicolon]) && ScriptSpells(ss[1..], q);
  }

  lemma ScriptBegins(ss: seq<Stmt>, ts: seq<Token>)
    requires ScriptSpells(ss, ts)
    ensures Follows(7, ts) && !Starts(ts, Semicolon) && (ss != [] ==> !First(ts).Eof?)
  {
    hide StmtSpells;
    if ss != [] {
      var p, c, q := ScriptParts(ss, ts);
      StmtBegins(ss[0], p);
      assert First(ts) == p[0];
    }
  }

  lemma {:induction false} ScriptAccepted(done: seq<Stmt>, ss: seq<Stmt>, ts: seq<Token>)
    requires ScriptSpells(ss, ts)
    ensures ReadAll(done, ts) == Some(done + ss)
    decreases |ss|
  {
    hide StmtSpells, ScriptSpells, ReadStmt, Follows;
    ScriptBegins(ss, ts);
    if ss == [] {
      EmptyScript(ts);
      assert done + ss == done;
    } else {
      var p, c, q := ScriptParts(ss, ts);
      ScriptBegins(ss[1..], q);
      if c == [] {
        assert ts == p + q && c + q == q;
      } else {
        Led(Semicolon, q);
        SemicolonFollows(q);
        Cat(p, c, q);
      }
      StmtAccepted(ss[0], p, c + q);
      ScriptAccepted(done + [ss[0]], ss[1..], q);
      assert done + ss == (done + [ss[0]]) + ss[1..];
      assert ts == p + (c + q);
    }
  }

  lemma EmptyScript(ts: seq<Token>)
    requires ScriptSpells([], ts)
    ensures First(ts).Eof?
  {
  }

  lemma SemicolonFollows(ts: seq<Token>)
    ensures Follows(7, [Semicolon] + ts)
  {
  }

  // ----- main results

  /** A statement is read off the tokens before the rest exactly when they spell it, whichever optional words are
      written. */
  lemma StmtIff(s: Stmt, p: seq<Token>, rest: seq<Token>)
    requires Follows(7, rest)
    ensures ReadStmt(p + rest) == Got(s, rest) <==> StmtSpells(s, p)
  {
    hide StmtSpells, ReadStmt, Follows;
    if StmtSpells(s, p) {
      StmtAccepted(s, p, rest);
    }
    if ReadStmt(p + rest) == Got(s, rest) {
      var q := StmtSpelled(p + rest);
      SameFront(p, q, rest);
    }
  }

  /** A token sequence is read as a script exactly when it spells it. */
  lemma ScriptIff(ss: seq<Stmt>, ts: seq<Token>)
    ensures ReadAll([], ts) == Some(ss) <==> ScriptSpells(ss, ts)
  {
    hide ScriptSpells, ReadAll;
    assert [] + ss == ss;
    if ScriptSpells(ss, ts) {
      ScriptAccepted([], ss, ts);
    }
    if ReadAll([], ts) == Some(ss) {
      var all := ScriptSpelled([], ts);
      assert [] + all == all;
    }
  }

  /** No text spells two scripts. */
  lemma OneScript(xs: seq<Stmt>, ys: seq<Stmt>, ts: seq<Token>)
    requires ScriptSpells(xs, ts) && ScriptSpells(ys, ts)
    ensures xs == ys
  {
    hide ScriptSpells, ReadAll;
    ScriptIff(xs, ts);
    ScriptIff(ys, ts);
  }

  // ----- the optional words of a SELECT

  /** A printed well-formed tree is one of its spellings. */
  lemma PrintSpells(e: Expr)
    requires WF(e)
    ensures Spells(e, 0, Print(e))
  {
    hide Spells, WF, Print, ReadExpression, Reads, Ends;
    NothingEnds();
    Whole(e, []);
    R.ReadsWhole(Print(e) + [], e, []);
    ReadIffSpelled(e, Print(e), []);
  }

  lemma NothingEnds()
    ensures Ends([])
  {
  }

  /** An ORDER BY item without direction is read as the one with ASC; DESC reverses it. */
  lemma DirectionIsOptional(e: Expr, p: seq<Token>, rest: seq<Token>)
    requires Spells(e, 0, p) && Ends(rest) && !Starts(rest, AscTok) && !Starts(rest, DescTok)
    ensures ReadOrderItem(p + rest) == Got(OrderByItem(e, false), rest)
    ensures ReadOrderItem(p + ([AscTok] + rest)) == Got(OrderByItem(e, false), rest)
    ensures ReadOrderItem(p + ([DescTok] + rest)) == Got(OrderByItem(e, true), rest)
  {
    hide Spells, ReadExpression, Ends;
    WholeAccepted(e, p, rest);
    Led(AscTok, rest);
    WordEnds(AscTok, [AscTok] + rest);
    WholeAccepted(e, p, [AscTok] + rest);
    Led(DescTok, rest);
    WordEnds(DescTok, [DescTok] + rest);
    WholeAccepted(e, p, [DescTok] + rest);
  }

  /** So ORDER BY a printed tree, without a direction, sorts by it ascending. */
  lemma PlainOrderIsAscending(e: Expr, rest: seq<Token>)
    requires WF(e) && Ends(rest) && !Starts(rest, AscTok) && !Starts(rest, DescTok)
    ensures ReadOrderItem(Print(e) + rest) == Got(OrderByItem(e, false), rest)
            == ReadOrderItem(Print(e) + ([AscTok] + rest))
  {
    hide *;
    PrintSpells(e);
    DirectionIsOptional(e, Print(e), rest);
  }

  /** A bare JOIN is read as INNER JOIN. */
  lemma InnerIsOptional(j: JoinClause, p: seq<Token>, c: seq<Token>, rest: seq<Token>)
    requires j.kind.INNER? && TableSpells(j.table, p) && ConditionSpells(j, c) && Next(rest) && !Starts(rest, OnTok)
    ensures ReadJoin([JoinTok] + p + c + rest) == Got(j, rest) == ReadJoin([InnerTok, JoinTok] + p + c + rest)
  {
    hide TableSpells, ConditionSpells, ReadJoin, Next;
    assert JoinSpells(j, [JoinTok] + p + c) && JoinSpells(j, [InnerTok, JoinTok] + p + c);
    JoinAccepted(j, [JoinTok] + p + c, rest);
    JoinAccepted(j, [InnerTok, JoinTok] + p + c, rest);
  }

  /** An alias without AS is read as the one with AS, in the select list and in FROM. */
  lemma AsIsOptional(i: SelectItem, p: seq<Token>, t: TableRef, rest: seq<Token>)
    requires Spells(i.expr, 0, p) && Next(rest)
    ensures ReadItem(p + [Ident(i.alias)] + rest) == Got(i, rest) == ReadItem(p + [AsTok, Ident(i.alias)] + rest)
    ensures ReadTable([Ident(t.name)] + [Ident(t.alias)] + rest) == Got(t, rest)
            == ReadTable([Ident(t.name)] + [AsTok, Ident(t.alias)] + rest)
  {
    hide Spells, ReadItem, ReadTable, Next;
    assert ItemSpells(i, p + [Ident(i.alias)]) && ItemSpells(i, p + [AsTok, Ident(i.alias)]);
    ItemAccepted(i, p + [Ident(i.alias)], rest);
    ItemAccepted(i, p + [AsTok, Ident(i.alias)], rest);
    assert TableSpells(t, [Ident(t.name)] + [Ident(t.alias)]);
    assert TableSpells(t, [Ident(t.name)] + [AsTok, Ident(t.alias)]);
    TableAccepted(t, [Ident(t.name)] + [Ident(t.alias)], rest);
    TableAccepted(t, [Ident(t.name)] + [AsTok, Ident(t.alias)], rest);
  }
}
